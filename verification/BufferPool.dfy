/**
 A fixed set of frames in front of the disk. Whatever is fetched, evicted, flushed
 and unpinned, each page keeps its logical contents, with one exception that is
 stated exactly: a page changed by users none of whom said so when unpinning it falls
 back to what is on disk when it is evicted.
 */
module BufferPool {
  import opened Common
  import opened BufferReplacer

  type Pid = int
  type Data = seq<int>

  const INVALID_PAGE: Pid := -1
  const ZERO: Data := []

  datatype PageFrame = PageFrame(page: Pid, data: Data, pins: int, dirty: bool)

  const Blank: PageFrame := PageFrame(INVALID_PAGE, ZERO, 0, false)

  ghost function PinsIn(table: map<Pid, Frame>, frames: seq<PageFrame>, p: Pid): int {
    if p in table && 0 <= table[p] < |frames| then frames[table[p]].pins else 0
  }

  ghost predicate DirtyIn(table: map<Pid, Frame>, frames: seq<PageFrame>, p: Pid) {
    p in table && 0 <= table[p] < |frames| && frames[table[p]].dirty
  }

  /** Emptying the frame of an unpinned page changes nobody's pins and no other flag. */
  lemma PinsElsewhere(table: map<Pid, Frame>, frames: seq<PageFrame>, f: Frame, p: Pid)
    requires 0 <= f < |frames| && p in table && table[p] == f && frames[f].pins == 0
    requires forall q | q in table && table[q] == f :: q == p
    ensures forall q :: PinsIn(table - {p}, frames[f := Blank], q) == PinsIn(table, frames, q)
    ensures forall q :: DirtyIn(table - {p}, frames[f := Blank], q) <==> DirtyIn(table, frames, q) && q != p
  {
  }

  /** Filling a free frame with a page that has none pins that page once. */
  lemma PinsOneMore(table: map<Pid, Frame>, frames: seq<PageFrame>, f: Frame, p: Pid, data: Data)
    requires 0 <= f < |frames| && p !in table && forall q | q in table :: table[q] != f
    ensures forall q :: PinsIn(table[p := f], frames[f := PageFrame(p, data, 1, false)], q)
                        == PinsIn(table, frames, q) + if q == p then 1 else 0
    ensures forall q :: DirtyIn(table[p := f], frames[f := PageFrame(p, data, 1, false)], q) <==> DirtyIn(table, frames, q)
  {
  }

  class Pool {
    var frames: seq<PageFrame>
    var pageTable: map<Pid, Frame>
    var freeList: seq<Frame>
    var disk: map<Pid, Data>
    var nextPage: Pid
    const replacer: LRUKReplacer

    /** What each allocated page holds, as far as its users know. */
    ghost var contents: map<Pid, Data>
    /** Resident pages changed by a user since someone last said so or flushed them. */
    ghost var touched: set<Pid>

    /** A page never written reads as zeros. */
    function OnDisk(p: Pid): Data
      reads this`disk
    {
      if p in disk then disk[p] else ZERO
    }

    ghost function View(p: Pid): Data
      reads this`pageTable, this`frames, this`disk
    {
      if p in pageTable && 0 <= pageTable[p] < |frames| then frames[pageTable[p]].data else OnDisk(p)
    }

    /** A frame is on the free list and blank, or holds the page that leads to it; the
        replacer knows just the latter, and which of them are unpinned. */
    ghost predicate FrameOk(f: Frame)
      requires 0 <= f < |frames|
      reads this`frames, this`freeList, this`pageTable, this`touched, this`disk, replacer
    {
      var fr := frames[f];
      if f in freeList then fr == Blank && f !in replacer.frames
      else
        && fr.page in pageTable && pageTable[fr.page] == f && fr.pins >= 0
        && f in replacer.frames && replacer.frames[f].history != []
        && (replacer.frames[f].evictable <==> fr.pins == 0)
        && (!fr.dirty && fr.page !in touched ==> fr.data == OnDisk(fr.page))
    }

    ghost predicate PageOk(p: Pid)
      requires p in pageTable
      reads this`pageTable, this`frames, this`freeList
    {
      0 <= p && 0 <= pageTable[p] < |frames| && pageTable[p] !in freeList && frames[pageTable[p]].page == p
    }

    ghost predicate FreeListOk()
      reads this`freeList, this`frames
    {
      && (forall i, j | 0 <= i < j < |freeList| :: freeList[i] != freeList[j])
      && (forall i | 0 <= i < |freeList| :: 0 <= freeList[i] < |frames|)
    }

    /** All is well but for the frame `hole`, if it is one: that frame is blank and
        nothing refers to it. */
    ghost predicate Shaped(hole: Frame)
      reads this`frames, this`freeList, this`pageTable, this`touched, this`disk, this`nextPage, replacer
    {
      && replacer.Valid() && replacer.size == |frames| && nextPage >= 0 && FreeListOk() && touched <= pageTable.Keys
      && (forall f | f in replacer.frames :: 0 <= f < |frames|)
      && (forall f {:trigger FrameOk(f)} | 0 <= f < |frames| && f != hole :: FrameOk(f))
      && (0 <= hole < |frames| ==> frames[hole] == Blank && hole !in freeList && hole !in replacer.frames)
      && (forall p {:trigger PageOk(p)} | p in pageTable :: PageOk(p))
    }

    ghost predicate Faithful()
      reads this
    {
      forall p {:trigger View(p)} | p in contents :: 0 <= p && View(p) == contents[p]
    }

    ghost predicate Valid()
      reads this, replacer
    {
      Shaped(-1) && Faithful()
    }

    ghost function Pins(p: Pid): int
      reads this`pageTable, this`frames
    {
      PinsIn(pageTable, frames, p)
    }

    ghost predicate Pinned(p: Pid)
      reads this`pageTable, this`frames
    {
      Pins(p) > 0
    }

    /** Every frame holds a pinned page. */
    ghost predicate Exhausted()
      reads this
    {
      forall f {:trigger frames[f]} | 0 <= f < |frames| :: f !in freeList && frames[f].pins > 0
    }

    /** The resident page's dirty flag. */
    ghost predicate Dirty(p: Pid)
      reads this`pageTable, this`frames
    {
      DirtyIn(pageTable, frames, p)
    }

    /** `p` has been changed, nobody has said so, and nobody has it pinned any more. */
    ghost predicate Forsaken(p: Pid)
      reads this`pageTable, this`frames, this`touched
    {
      p in touched && Pins(p) == 0 && !Dirty(p)
    }

    /** Every change is with someone who has the page pinned, or has been spoken of. */
    ghost predicate Kept()
      reads this`pageTable, this`frames, this`touched
    {
      forall p | p in touched :: Pins(p) != 0 || Dirty(p)
    }

    /** `p` is the page that has to go when a frame is needed. */
    ghost predicate NextOut(p: Pid)
      reads this`pageTable, this`freeList, replacer
    {
      freeList == [] && p in pageTable && IsVictim(replacer.Abs(), replacer.k, pageTable[p])
    }

    /** The contents once a frame has been made available. */
    ghost function AfterEviction(): map<Pid, Data>
      reads this, replacer
    {
      map p | p in contents :: if NextOut(p) && Forsaken(p) then OnDisk(p) else contents[p]
    }

    /** What the disk holds once a frame has been made available. */
    ghost function DiskAfter(p: Pid): Data
      reads this, replacer
    {
      if NextOut(p) && Dirty(p) then View(p) else OnDisk(p)
    }

    /** The next page id to be handed out is not in use: its page will not be in the pool
        by then, and has never been written. */
    ghost predicate Unused()
      reads this, replacer
    {
      (nextPage in pageTable ==> NextOut(nextPage)) && DiskAfter(nextPage) == ZERO
    }

    /** Nothing is lost by an eviction then. */
    lemma NothingLost()
      requires Kept()
      ensures AfterEviction() == contents
    {
      forall p | p in contents ensures !Forsaken(p) { }
    }

    constructor (size: nat, k: nat, disk: map<Pid, Data>, nextPage: Pid)
      requires k >= 1 && nextPage >= 0 && forall p | p in disk :: p < nextPage
      ensures Valid() && |frames| == size && fresh(replacer) && (size > 0 ==> !Exhausted())
      ensures pageTable == map[] && touched == {} && this.nextPage == nextPage && this.disk == disk
      ensures contents == map p | 0 <= p < nextPage :: if p in disk then disk[p] else ZERO
    {
      replacer := new LRUKReplacer(size, k);
      frames := seq(size, _ => Blank);
      freeList := seq(size, i => i);
      pageTable, this.disk, this.nextPage := map[], disk, nextPage;
      touched := {};
      contents := map p | 0 <= p < nextPage :: if p in disk then disk[p] else ZERO;
      new;
      assert size > 0 ==> freeList[0] == 0 && frames[0] == Blank;
      forall f | 0 <= f < size ensures FrameOk(f) {
        assert freeList[f] == f;
      }
    }

    // -------------------------------------------------------------------
    // Frames
    // -------------------------------------------------------------------

    /** A blank frame, off the free list or from an evicted page; nothing exactly when
        every frame holds a pinned page. */
    method AcquireFrame() returns (r: Option<Frame>)
      requires Valid()
      modifies this`frames, this`pageTable, this`freeList, this`disk, this`contents, this`touched, replacer
      ensures r.None? <==> old(Exhausted())
      ensures r.None? ==> Valid() && frames == old(frames) && pageTable == old(pageTable) && contents == old(contents)
      ensures r.Some? ==> 0 <= r.value < |frames| && Shaped(r.value) && Faithful() && contents == old(AfterEviction())
      ensures |frames| == |old(frames)|
      ensures forall p :: p in pageTable <==> p in old(pageTable) && !old(NextOut(p))
      ensures touched <= old(touched) && forall p :: p in touched <==> p in old(touched) && !old(NextOut(p))
      ensures forall p :: Dirty(p) <==> old(Dirty(p)) && !old(NextOut(p))
      ensures forall p :: Pins(p) == old(Pins(p)) && OnDisk(p) == if r.Some? then old(DiskAfter(p)) else old(OnDisk(p))
    {
      if |freeList| > 0 {
        var f := PopFree();
        assert contents == old(AfterEviction());
        r := Some(f);
      } else {
        r := EvictPage();
      }
    }

    method EvictPage() returns (r: Option<Frame>)
      requires Valid() && freeList == []
      modifies this`frames, this`pageTable, this`disk, this`contents, this`touched, replacer
      ensures r.None? <==> old(Exhausted())
      ensures r.None? ==> Valid() && frames == old(frames) && pageTable == old(pageTable) && contents == old(contents)
      ensures r.Some? ==> 0 <= r.value < |frames| && Shaped(r.value) && Faithful() && contents == old(AfterEviction())
      ensures |frames| == |old(frames)|
      ensures forall p :: p in pageTable <==> p in old(pageTable) && !old(NextOut(p))
      ensures touched <= old(touched) && forall p :: p in touched <==> p in old(touched) && !old(NextOut(p))
      ensures forall p :: Dirty(p) <==> old(Dirty(p)) && !old(NextOut(p))
      ensures forall p :: Pins(p) == old(Pins(p)) && OnDisk(p) == if r.Some? then old(DiskAfter(p)) else old(OnDisk(p))
    {
      WhoIsPinned();
      WhoIsOut();
      ghost var settled := AfterEviction();
      var victim := replacer.Evict();
      if victim == Victim(None) {
        forall f | 0 <= f < |frames| ensures FrameOk(f) { assert old(FrameOk(f)); }
        return None;
      }
      var f := victim.frame.value;
      assert old(FrameOk(f)) && Candidate(old(replacer.Abs()), f);
      assert forall p :: old(NextOut(p)) <==> p == frames[f].page;
      forall g | 0 <= g < |frames| && g != f ensures FrameOk(g) { assert old(FrameOk(g)); }
      assert old(View(frames[f].page)) == frames[f].data;
      Expel(f, settled);
      r := Some(f);
    }

    /** The page to go is the one in the victim's frame. */
    lemma WhoIsOut()
      requires Shaped(-1) && freeList == []
      ensures forall p | NextOut(p) :: Candidate(replacer.Abs(), pageTable[p])
      ensures forall p, f | NextOut(p) && IsVictim(replacer.Abs(), replacer.k, f) :: pageTable[p] == f && frames[f].page == p
    {
      forall p, f | NextOut(p) && IsVictim(replacer.Abs(), replacer.k, f) ensures pageTable[p] == f && frames[f].page == p {
        VictimIsUnique(replacer.Abs(), replacer.k, f, pageTable[p]);
        assert PageOk(p);
      }
    }

    /** With the free list empty, a frame is pinned unless the replacer may evict it. */
    lemma WhoIsPinned()
      requires Shaped(-1) && freeList == []
      ensures forall f | 0 <= f < |frames| :: frames[f].pins > 0 <==> !Candidate(replacer.Abs(), f)
      ensures Exhausted() <==> forall f :: !Candidate(replacer.Abs(), f)
      ensures forall f :: !Unread(replacer.Abs(), f)
    {
      forall f ensures !Unread(replacer.Abs(), f) {
        if f in replacer.frames { assert FrameOk(f); }
      }
      forall f | 0 <= f < |frames| ensures frames[f].pins > 0 <==> !Candidate(replacer.Abs(), f) {
        assert FrameOk(f);
      }
      if Exhausted() {
        forall f ensures !Candidate(replacer.Abs(), f) {
          if 0 <= f < |frames| { assert frames[f].pins > 0; }
        }
      }
    }

    method PopFree() returns (f: Frame)
      requires Valid() && |freeList| > 0
      modifies this`freeList
      ensures 0 <= f < |frames| && Shaped(f) && Faithful() && !old(Exhausted())
    {
      f := freeList[0];
      assert FrameOk(f);
      assert freeList == [f] + freeList[1..];
      freeList := freeList[1..];
      forall g | 0 <= g < |frames| && g != f ensures FrameOk(g) { assert old(FrameOk(g)); }
      forall p | p in pageTable ensures PageOk(p) { assert old(PageOk(p)); }
      forall p | p in contents ensures 0 <= p && View(p) == contents[p] {
        assert old(View(p)) == contents[p];
      }
      assert old(frames[f]) == frames[f];
    }

    /** The page in frame `f`, which the replacer has just given up, is written back if
        it is dirty, and leaves. From then on the contents are `settled`. */
    method Expel(f: Frame, ghost settled: map<Pid, Data>)
      requires replacer.Valid() && nextPage >= 0 && FreeListOk() && touched <= pageTable.Keys && Faithful()
      requires 0 <= f < |frames| && f !in freeList && f !in replacer.frames && frames[f].pins == 0
      requires frames[f].page in pageTable && pageTable[frames[f].page] == f && replacer.size == |frames|
      requires settled.Keys == contents.Keys && forall p | p in contents && p != frames[f].page :: settled[p] == contents[p]
      requires frames[f].page in contents ==>
                 settled[frames[f].page] == if frames[f].dirty then frames[f].data else OnDisk(frames[f].page)
      requires forall g | g in replacer.frames :: 0 <= g < |frames|
      requires forall g {:trigger FrameOk(g)} | 0 <= g < |frames| && g != f :: FrameOk(g)
      requires forall p {:trigger PageOk(p)} | p in pageTable :: PageOk(p)
      modifies this`frames, this`pageTable, this`disk, this`contents, this`touched
      ensures Shaped(f) && Faithful() && |frames| == |old(frames)| && pageTable == old(pageTable) - {old(frames)[f].page}
      ensures touched == old(touched) - {old(frames)[f].page}
      ensures forall p :: Dirty(p) <==> old(Dirty(p)) && p != old(frames)[f].page
      ensures contents == settled && forall p :: Pins(p) == old(Pins(p))
      ensures forall p :: OnDisk(p) == if p == old(frames)[f].page && old(frames)[f].dirty then old(frames)[f].data else old(OnDisk(p))
    {
      var victim := frames[f];
      assert PageOk(victim.page);
      forall q | q in pageTable && pageTable[q] == f ensures q == victim.page { assert PageOk(q); }
      WriteBack(f);
      label L:
      pageTable := pageTable - {victim.page};
      frames := frames[f := Blank];
      touched := touched - {victim.page};
      contents := settled;
      forall g | 0 <= g < |frames| && g != f ensures FrameOk(g) { assert old@L(FrameOk(g)); }
      forall p | p in pageTable ensures PageOk(p) { assert old(PageOk(p)); }
      forall p | p in contents ensures 0 <= p && View(p) == contents[p] {
        assert old(View(p)) == old(contents)[p];
        if p in pageTable { assert PageOk(p) && old(PageOk(p)); }
      }
      PinsElsewhere(old(pageTable), old(frames), f, victim.page);
    }

    /** Other frames do not notice. */
    method WriteBack(f: Frame)
      requires 0 <= f < |frames| && frames[f].page in pageTable && pageTable[frames[f].page] == f
      requires forall g {:trigger FrameOk(g)} | 0 <= g < |frames| && g != f :: FrameOk(g)
      modifies this`disk
      ensures forall g {:trigger FrameOk(g)} | 0 <= g < |frames| && g != f :: FrameOk(g)
      ensures forall p :: OnDisk(p) == if p == frames[f].page && frames[f].dirty then frames[f].data else old(OnDisk(p))
    {
      if frames[f].dirty {
        disk := disk[frames[f].page := frames[f].data];
        forall g | 0 <= g < |frames| && g != f ensures FrameOk(g) { assert old(FrameOk(g)); }
      }
    }

    /** The replacer hears that a frame is in use. */
    method Touch(f: Frame)
      requires replacer.Valid() && 0 <= f < replacer.size
      modifies replacer
      ensures replacer.Valid() && replacer.frames.Keys == old(replacer.frames.Keys) + {f}
      ensures replacer.frames[f].history != [] && !replacer.frames[f].evictable
      ensures forall g | g in old(replacer.frames) && g != f :: replacer.frames[g] == old(replacer.frames[g])
    {
      var known := replacer.RecordAccess(f);
      replacer.SetEvictable(f, false);
    }

    /** Puts a page into the blank frame `f`, pinned. The pool is in order afterwards
        exactly when the page was not resident and the data is what the disk has. */
    method Fill(f: Frame, p: Pid, data: Data)
      requires 0 <= f < |frames| && Shaped(f) && Faithful() && 0 <= p
      modifies this`frames, this`pageTable, replacer
      ensures |frames| == |old(frames)| && pageTable == old(pageTable)[p := f]
      ensures frames == old(frames)[f := PageFrame(p, data, 1, false)]
      ensures Valid() <==> old(p !in pageTable && data == OnDisk(p))
      ensures old(p !in pageTable) ==> forall q :: Pins(q) == old(Pins(q)) + if q == p then 1 else 0
      ensures old(p !in pageTable) ==> forall q :: Dirty(q) <==> old(Dirty(q))
    {
      forall q | q in pageTable ensures pageTable[q] != f && pageTable[q] !in freeList { assert PageOk(q); }
      assert p in pageTable ==> PageOk(p);
      ghost var held := if p in pageTable then pageTable[p] else f;
      frames := frames[f := PageFrame(p, data, 1, false)];
      pageTable := pageTable[p := f];
      Touch(f);
      if old(p !in pageTable) {
        PinsOneMore(old(pageTable), old(frames), f, p, data);
      }
      if old(p !in pageTable && data == OnDisk(p)) {
        forall g | 0 <= g < |frames| ensures FrameOk(g) {
          if g != f { assert old(FrameOk(g)); }
        }
        forall q | q in pageTable ensures PageOk(q) {
          if q != p { assert old(PageOk(q)); }
        }
        forall q | q in contents ensures 0 <= q && View(q) == contents[q] {
          assert old(View(q)) == contents[q];
          if q in old(pageTable) { assert old(PageOk(q)); }
        }
      } else {
        assert !FrameOk(held);
      }
    }

    // -------------------------------------------------------------------
    // Operations
    // -------------------------------------------------------------------

    /** Allocates a page of zeros and pins it. The pool is in order afterwards exactly when
        nobody has fetched the page before it was allocated, or it has left again
        without having been written. */
    method NewPage() returns (p: Option<Pid>)
      requires Valid()
      modifies this`frames, this`pageTable, this`freeList, this`disk, this`nextPage, this`contents, this`touched, replacer
      ensures p.None? <==> old(Exhausted())
      ensures p.None? ==> Valid() && contents == old(contents) && nextPage == old(nextPage) && pageTable == old(pageTable)
      ensures p.None? ==> forall q :: Pins(q) == old(Pins(q)) && (Dirty(q) <==> old(Dirty(q)))
      ensures p.Some? ==> p.value == old(nextPage) && nextPage == p.value + 1 && (Valid() <==> old(Unused()))
      ensures p.Some? && old(nextPage in pageTable && !NextOut(nextPage)) ==>
                exists f, g :: 0 <= f < g < |frames| && frames[f].page == p.value && frames[g].page == p.value
      ensures p.Some? && old(Unused()) ==>
                && contents == old(AfterEviction())[p.value := ZERO]
                && OnDisk(p.value) == ZERO
                && (forall q :: q in pageTable <==> q == p.value || (q in old(pageTable) && !old(NextOut(q))))
                && (forall q :: Dirty(q) <==> old(Dirty(q)) && !old(NextOut(q)))
                && (forall q :: Pins(q) == old(Pins(q)) + if q == p.value then 1 else 0)
      ensures old(Kept()) && (p.Some? ==> old(Unused())) ==>
                Kept() && contents == if p.Some? then old(contents)[p.value := ZERO] else old(contents)
      ensures touched <= old(touched) && forall q :: q in touched <==> q in old(touched) && !old(NextOut(q))
      ensures |frames| == |old(frames)|
      ensures forall q :: OnDisk(q) == if p.Some? then old(DiskAfter(q)) else old(OnDisk(q))
    {
      if Kept() { NothingLost(); }
      var f := AcquireFrame();
      if f.None? {
        return None;
      }
      var id := PlaceNew(f.value);
      p := Some(id);
    }

    /** Puts the next page into the blank frame `f`. */
    method PlaceNew(f: Frame) returns (id: Pid)
      requires 0 <= f < |frames| && Shaped(f) && Faithful()
      modifies this`frames, this`pageTable, this`nextPage, this`contents, replacer
      ensures id == old(nextPage) && nextPage == id + 1 && |frames| == |old(frames)|
      ensures var unused := old(nextPage !in pageTable && OnDisk(nextPage) == ZERO);
              && (Valid() <==> unused)
              && (old(nextPage in pageTable) ==>
                    exists i, j :: 0 <= i < j < |frames| && frames[i].page == id && frames[j].page == id)
              && (unused ==> && contents == old(contents)[id := ZERO] && pageTable == old(pageTable)[id := f]
                             && (forall q :: Dirty(q) <==> old(Dirty(q)))
                             && (forall q :: Pins(q) == old(Pins(q)) + if q == id then 1 else 0))
    {
      id := AllocatePage(f);
      ghost var unused := id !in pageTable && OnDisk(id) == ZERO;
      ghost var held := if id in pageTable then pageTable[id] else f;
      assert id in pageTable ==> PageOk(id) && held != f && frames[held].page == id;
      Fill(f, id, ZERO);
      assert frames[f].page == id && frames[held].page == id;
      if unused {
        assert Faithful();
        contents := contents[id := ZERO];
        forall q | q in contents ensures 0 <= q && View(q) == contents[q] {
          assert q in old(contents) ==> View(q) == old(contents)[q];
        }
      }
    }

    /** Page ids are handed out in order and never again. */
    method AllocatePage(ghost hole: Frame) returns (p: Pid)
      requires Shaped(hole) && Faithful()
      modifies this`nextPage
      ensures Shaped(hole) && Faithful() && p == old(nextPage) && nextPage == p + 1
    {
      p := nextPage;
      nextPage := nextPage + 1;
      forall q | q in pageTable ensures PageOk(q) { assert old(PageOk(q)); }
      forall q | q in contents ensures 0 <= q && View(q) == contents[q] { assert old(View(q)) == contents[q]; }
    }

    /** Pins a page, reading it from disk if it is not resident. */
    method FetchPage(p: Pid) returns (r: Option<Data>)
      requires Valid() && 0 <= p
      modifies this`frames, this`pageTable, this`freeList, this`disk, this`contents, this`touched, replacer
      ensures Valid()
      ensures r.None? <==> p !in old(pageTable) && old(Exhausted())
      ensures r.Some? ==> r.value == View(p) && (p in contents ==> r.value == contents[p]) && p in pageTable
      ensures |frames| == |old(frames)|
      ensures contents == if p in old(pageTable) || r.None? then old(contents) else old(AfterEviction())
      ensures forall q :: Pins(q) == old(Pins(q)) + if q == p && r.Some? then 1 else 0
      ensures touched <= old(touched)
      ensures forall q :: q in touched <==> q in old(touched) && (p in old(pageTable) || !old(NextOut(q)))
      ensures forall q :: Dirty(q) <==> old(Dirty(q)) && (p in old(pageTable) || !old(NextOut(q)))
      ensures forall q :: q in pageTable <==>
                (q == p && r.Some?) || (q in old(pageTable) && (p in old(pageTable) || !old(NextOut(q))))
      ensures forall q :: OnDisk(q) == if p in old(pageTable) || r.None? then old(OnDisk(q)) else old(DiskAfter(q))
      ensures old(Kept()) ==> Kept() && contents == old(contents)
    {
      if Kept() { NothingLost(); }
      if p in pageTable {
        r := Repin(p);
        return;
      }
      var f := AcquireFrame();
      if f.None? {
        return None;
      }
      Fill(f.value, p, OnDisk(p));
      assert View(p) == frames[f.value].data;
      r := Some(frames[f.value].data);
    }

    method Repin(p: Pid) returns (r: Option<Data>)
      requires Valid() && p in pageTable
      modifies this`frames, replacer
      ensures Valid() && r == Some(View(p)) && (p in contents ==> r.value == contents[p]) && |frames| == |old(frames)|
      ensures forall q :: Pins(q) == old(Pins(q)) + if q == p then 1 else 0
      ensures Pinned(p) && forall q :: Dirty(q) <==> old(Dirty(q))
    {
      var f := pageTable[p];
      assert PageOk(p) && FrameOk(f);
      frames := frames[f := frames[f].(pins := frames[f].pins + 1)];
      Touch(f);
      Reframed(f);
      OtherPins(p);
      OtherFlags(p);
      r := Some(frames[f].data);
    }

    /** Only frame `f` has changed, and still holds the same data of the same page. */
    twostate lemma Reframed(f: Frame)
      requires old(Valid()) && replacer.Valid() && 0 <= f < |frames| == |old(frames)|
      requires f !in freeList && f in old(replacer.frames) && FrameOk(f)
      requires replacer.frames.Keys == old(replacer.frames.Keys)
      requires forall g | g in replacer.frames && g != f :: replacer.frames[g] == old(replacer.frames[g])
      requires forall g | 0 <= g < |frames| && g != f :: frames[g] == old(frames[g])
      requires frames[f].page == old(frames[f].page) && frames[f].data == old(frames[f].data)
      requires pageTable == old(pageTable) && freeList == old(freeList) && nextPage == old(nextPage)
      requires contents == old(contents) && touched <= pageTable.Keys
      requires disk == old(disk) || disk == old(disk)[frames[f].page := frames[f].data]
      requires forall q | q != frames[f].page :: q in touched <==> q in old(touched)
      ensures Valid()
    {
      assert old(FrameOk(f));
      assert old(PageOk(frames[f].page));
      forall g | 0 <= g < |frames| ensures FrameOk(g) {
        if g != f { assert old(FrameOk(g)); }
      }
      forall q | q in pageTable ensures PageOk(q) { assert old(PageOk(q)); }
      forall q | q in contents ensures 0 <= q && View(q) == contents[q] {
        assert old(View(q)) == contents[q];
        if q in pageTable { assert old(PageOk(q)); }
      }
    }

    twostate lemma OtherPins(p: Pid)
      requires old(Valid()) && pageTable == old(pageTable) && p in pageTable && |frames| == |old(frames)|
      requires forall g | 0 <= g < |frames| && g != pageTable[p] :: frames[g] == old(frames[g])
      ensures forall q | q != p :: Pins(q) == old(Pins(q))
    {
      assert old(PageOk(p));
      forall q | q != p ensures Pins(q) == old(Pins(q)) {
        if q in pageTable { assert old(PageOk(q)); }
      }
    }

    /** A user changes a page it has pinned. */
    method WriteData(p: Pid, data: Data)
      requires Valid() && Pinned(p)
      modifies this`frames, this`contents, this`touched
      ensures Valid() && contents == old(contents)[p := data]
      ensures touched == old(touched) + {p}
      ensures |frames| == |old(frames)| && forall q :: Pins(q) == old(Pins(q)) && (Dirty(q) <==> old(Dirty(q)))
      ensures old(Kept()) ==> Kept()
    {
      var f := pageTable[p];
      assert PageOk(p) && FrameOk(f);
      frames := frames[f := frames[f].(data := data)];
      contents := contents[p := data];
      touched := touched + {p};
      forall g | 0 <= g < |frames| ensures FrameOk(g) { assert old(FrameOk(g)); }
      forall q | q in pageTable ensures PageOk(q) { assert old(PageOk(q)); }
      forall q | q in contents ensures 0 <= q && View(q) == contents[q] {
        if q != p {
          assert old(View(q)) == contents[q];
          if q in pageTable { assert old(PageOk(q)); }
        }
      }
      OtherPins(p);
    }

    /** Gives up one pin. A changed page becomes forsaken exactly when the last pin goes
        and neither this user nor anyone since the last flush says that it is dirty. */
    method UnpinPage(p: Pid, dirty: bool) returns (ok: bool)
      requires Valid()
      modifies this`frames, this`touched, replacer
      ensures Valid() && (ok <==> old(Pinned(p)))
      ensures touched == if ok && dirty then old(touched) - {p} else old(touched)
      ensures forall q :: Pins(q) == if ok && q == p then old(Pins(q)) - 1 else old(Pins(q))
      ensures forall q :: Dirty(q) <==> old(Dirty(q)) || (ok && dirty && q == p)
      ensures forall q :: Forsaken(q) <==>
                old(Forsaken(q)) || (ok && q == p && p in old(touched) && old(Pins(p)) == 1 && !dirty && !old(Dirty(p)))
      ensures old(Kept()) ==>
                (Kept() <==> !(ok && p in old(touched) && old(Pins(p)) == 1 && !dirty && !old(Dirty(p))))
      ensures |frames| == |old(frames)|
    {
      if p !in pageTable {
        return false;
      }
      var f := pageTable[p];
      assert PageOk(p) && FrameOk(f);
      if frames[f].pins <= 0 {
        return false;
      }
      frames := frames[f := frames[f].(dirty := frames[f].dirty || dirty, pins := frames[f].pins - 1)];
      if dirty {
        touched := touched - {p};
      }
      if frames[f].pins == 0 {
        replacer.SetEvictable(f, true);
      }
      Reframed(f);
      OtherPins(p);
      OtherFlags(p);
      ok := true;
    }

    twostate lemma OtherFlags(p: Pid)
      requires old(Valid()) && pageTable == old(pageTable) && p in pageTable && |frames| == |old(frames)|
      requires forall g | 0 <= g < |frames| && g != pageTable[p] :: frames[g] == old(frames[g])
      ensures forall q | q != p :: Dirty(q) <==> old(Dirty(q))
    {
      assert old(PageOk(p));
      forall q | q != p ensures Dirty(q) <==> old(Dirty(q)) {
        if q in pageTable { assert old(PageOk(q)); }
      }
    }

    /** Writes a resident page back, pinned or not. */
    method FlushPage(p: Pid) returns (ok: bool)
      requires Valid()
      modifies this`frames, this`disk, this`touched
      ensures Valid() && (ok <==> p in pageTable) && touched == old(touched) - {p}
      ensures forall q :: OnDisk(q) == if ok && q == p then View(q) else old(OnDisk(q))
      ensures forall q :: Dirty(q) <==> old(Dirty(q)) && q != p
      ensures forall q :: View(q) == old(View(q)) && Pins(q) == old(Pins(q))
      ensures |frames| == |old(frames)| && (old(Kept()) ==> Kept())
    {
      if p !in pageTable {
        return false;
      }
      var f := pageTable[p];
      assert PageOk(p) && FrameOk(f);
      disk := disk[p := frames[f].data];
      frames := frames[f := frames[f].(dirty := false)];
      touched := touched - {p};
      Reframed(f);
      OtherPins(p);
      OtherFlags(p);
      ok := true;
    }

    /** Afterwards the disk holds the contents of every page but those that have been
        changed without anyone saying so. */
    method FlushAllPages()
      requires Valid()
      modifies this`frames, this`disk, this`touched
      ensures Valid() && touched <= old(touched) && forall p :: p in touched <==> p in old(touched) && !old(Dirty(p))
      ensures forall p | p in contents && p !in touched :: OnDisk(p) == contents[p]
      ensures forall p | p !in pageTable :: OnDisk(p) == old(OnDisk(p))
      ensures forall p :: Pins(p) == old(Pins(p)) && !Dirty(p)
      ensures |frames| == |old(frames)| && (old(Kept()) ==> Kept())
    {
      var rest := pageTable.Keys;
      while rest != {}
        invariant Valid() && rest <= pageTable.Keys
        invariant forall p :: Pins(p) == old(Pins(p))
        invariant touched <= old(touched)
        invariant forall p :: p in touched <==> p in old(touched) && !(old(Dirty(p)) && p !in rest)
        invariant forall p | p in rest :: Dirty(p) <==> old(Dirty(p))
        invariant forall p | Dirty(p) :: p in rest
        invariant forall p | p !in pageTable :: OnDisk(p) == old(OnDisk(p))
        invariant |frames| == |old(frames)| && (old(Kept()) ==> Kept())
        invariant forall p | p in pageTable && p !in rest && p !in touched :: OnDisk(p) == View(p)
        decreases rest
      {
        ghost var some := Member(rest);
        var p :| p in rest;
        assert PageOk(p) && FrameOk(pageTable[p]);
        if frames[pageTable[p]].dirty {
          assert Dirty(p);
          var ok := FlushPage(p);
        }
        rest := rest - {p};
      }
      forall p | p in contents && p !in touched ensures OnDisk(p) == contents[p] {
        assert View(p) == contents[p];
      }
    }

    /** Forgets a page that nobody has pinned; its changes since the last flush are lost,
        and so is what it held. */
    method DeletePage(p: Pid) returns (ok: bool)
      requires Valid()
      modifies this`frames, this`pageTable, this`freeList, this`contents, this`touched, replacer
      ensures Valid() && (ok <==> !old(Pinned(p)))
      ensures contents == if ok then old(contents) - {p} else old(contents)
      ensures pageTable == if ok then old(pageTable) - {p} else old(pageTable)
      ensures touched == if ok then old(touched) - {p} else old(touched)
      ensures forall q :: Pins(q) == old(Pins(q)) && (Dirty(q) <==> old(Dirty(q)) && !(ok && q == p))
      ensures |frames| == |old(frames)| && (old(Kept()) ==> Kept())
    {
      if p !in pageTable {
        contents := contents - {p};
        assert pageTable - {p} == pageTable && touched - {p} == touched;
        forall q | q in contents ensures 0 <= q && View(q) == contents[q] { assert old(View(q)) == contents[q]; }
        return true;
      }
      var f := pageTable[p];
      assert PageOk(p) && FrameOk(f);
      if frames[f].pins > 0 {
        return false;
      }
      replacer.SetEvictable(f, true);
      var removed := replacer.Remove(f);
      forall g | 0 <= g < |frames| && g != f ensures FrameOk(g) { assert old(FrameOk(g)); }
      Discard(p, f);
      ok := true;
    }

    /** Frees the frame of a page the replacer no longer knows. */
    method Discard(p: Pid, f: Frame)
      requires replacer.Valid() && nextPage >= 0 && FreeListOk() && touched <= pageTable.Keys && Faithful()
      requires 0 <= f < |frames| && f !in replacer.frames && p in pageTable && pageTable[p] == f
      requires replacer.size == |frames|
      requires forall g | g in replacer.frames :: 0 <= g < |frames|
      requires forall g {:trigger FrameOk(g)} | 0 <= g < |frames| && g != f :: FrameOk(g)
      requires forall q {:trigger PageOk(q)} | q in pageTable :: PageOk(q)
      modifies this`frames, this`pageTable, this`freeList, this`contents, this`touched
      ensures Valid() && contents == old(contents) - {p} && pageTable == old(pageTable) - {p}
      ensures touched == old(touched) - {p} && |frames| == |old(frames)|
      ensures forall q | q != p :: Pins(q) == old(Pins(q)) && (Dirty(q) <==> old(Dirty(q)))
    {
      assert PageOk(p);
      pageTable := pageTable - {p};
      frames := frames[f := Blank];
      freeList := freeList + [f];
      contents := contents - {p};
      touched := touched - {p};
      forall g | 0 <= g < |frames| ensures FrameOk(g) {
        assert g in freeList <==> g in old(freeList) || g == f;
        if g != f { assert old(FrameOk(g)); }
      }
      forall q | q in pageTable ensures PageOk(q) {
        assert old(PageOk(q));
        assert pageTable[q] in freeList <==> pageTable[q] in old(freeList) || pageTable[q] == f;
      }
      forall q | q in contents ensures 0 <= q && View(q) == contents[q] {
        assert old(View(q)) == contents[q];
        if q in pageTable { assert old(PageOk(q)); }
      }
      forall q | q != p ensures Pins(q) == old(Pins(q)) && (Dirty(q) <==> old(Dirty(q))) {
        if q in pageTable { assert old(PageOk(q)); }
      }
    }
  }

  /** A pool of one frame with one page in it, pinned. */
  method OnePage() returns (pool: Pool, p: Pid)
    ensures fresh(pool) && fresh(pool.replacer) && pool.Valid() && |pool.frames| == 1 && pool.touched == {}
    ensures 0 <= p < pool.nextPage && pool.OnDisk(p) == ZERO && !pool.Dirty(p) && pool.Pins(p) == 1
    ensures pool.OnDisk(pool.nextPage) == ZERO && pool.pageTable.Keys == {p}
  {
    pool := new Pool(1, 1, map[], 0);
    var r := pool.NewPage();
    p := r.value;
    assert forall q :: q in pool.pageTable <==> q == p;
  }

  /** A page written and unpinned as clean. */
  method WriteUnsaid(data: Data) returns (pool: Pool, p: Pid)
    ensures fresh(pool) && fresh(pool.replacer) && pool.Valid() && |pool.frames| == 1
    ensures 0 <= p < pool.nextPage && p in pool.contents && pool.contents[p] == data && pool.OnDisk(p) == ZERO
    ensures pool.OnDisk(pool.nextPage) == ZERO && pool.nextPage !in pool.pageTable
    ensures pool.Forsaken(p) && pool.NextOut(p) && !pool.Exhausted()
  {
    pool, p := OnePage();
    pool.WriteData(p, data);
    var ok := pool.UnpinPage(p, false);
    OnlyPageIsNext(pool, p);
  }

  /** A change nobody speaks of is lost: the page reads as zeros once another page has
      been in the pool. */
  method UnsaidChangeIsLost(data: Data) returns (back: Data)
    ensures back == ZERO
  {
    var pool, p := WriteUnsaid(data);
    TurnOver(pool, p);
    var r := pool.FetchPage(p);
    back := r.value;
  }

  /** Another page comes and is unpinned. */
  method TurnOver(pool: Pool, p: Pid)
    requires pool.Valid() && |pool.frames| == 1 && 0 <= p < pool.nextPage && p in pool.contents
    requires pool.Forsaken(p) && pool.NextOut(p) && !pool.Exhausted()
    requires pool.OnDisk(pool.nextPage) == ZERO && pool.nextPage !in pool.pageTable
    modifies pool, pool.replacer
    ensures pool.Valid() && !pool.Exhausted()
    ensures p in pool.contents && pool.contents[p] == old(pool.OnDisk(p)) && p !in pool.pageTable
  {
    var q := pool.NewPage();
    var ok := pool.UnpinPage(q.value, false);
    OnlyPageIsNext(pool, q.value);
  }

  lemma FirstIsIn(list: seq<Frame>)
    ensures list != [] ==> list[0] in list
  {
  }

  lemma OnlyPageIsNext(pool: Pool, p: Pid)
    requires pool.Valid() && |pool.frames| == 1 && p in pool.pageTable && pool.Pins(p) == 0
    ensures pool.NextOut(p) && !pool.Exhausted() && pool.pageTable == map[p := pool.pageTable[p]]
  {
    var free := pool.freeList;
    FirstIsIn(free);
    assert pool.PageOk(p) && pool.FrameOk(0);
    assert free != [] ==> 0 in free;
    assert forall g :: Candidate(pool.replacer.Abs(), g) ==> g == 0;
    forall q | q in pool.pageTable ensures q == p { assert pool.PageOk(q); }
    assert pool.frames[0].pins == 0;
  }

  lemma SomeFrameIsLeft(pool: Pool, p: Pid)
    requires pool.Valid() && |pool.frames| == 2 && forall q | q != p :: pool.Pins(q) == 0
    ensures !pool.Exhausted()
  {
    assert pool.FrameOk(0) && pool.FrameOk(1);
    assert pool.frames[0].page != p ==> pool.Pins(pool.frames[0].page) == 0;
    assert pool.frames[1].page != p ==> pool.Pins(pool.frames[1].page) == 0;
  }

  /** A page fetched before it is allocated is then in two frames at once. */
  method EarlyFetchCollides() returns (pool: Pool, p: Option<Pid>)
    ensures p.Some? && !pool.Valid()
    ensures exists f, g :: 0 <= f < g < |pool.frames| && pool.frames[f].page == p.value && pool.frames[g].page == p.value
  {
    pool := new Pool(2, 1, map[], 0);
    var r := pool.FetchPage(0);
    SomeFrameIsLeft(pool, 0);
    assert pool.PageOk(0) && pool.FrameOk(pool.pageTable[0]) && pool.Pins(0) == 1;
    assert !pool.NextOut(0);
    p := pool.NewPage();
  }
}

/**
 The on-disk table: a header page, data pages of sorted entries, index pages with
 the first key of every data page, and the pages of a Bloom filter. Building a file
 from a sorted run and opening it again gives a table that answers lookups and
 iterates exactly like the run.
 */
module LsmSSTable {
  import opened Common
  import opened LsmTables

  const PAGE_SIZE: nat := 4096
  const MAX_VALUE_SIZE: nat := 64
  const ENTRIES_PER_PAGE: nat := 51
  const INDEX_PER_PAGE: nat := 255
  const INVALID_PAGE: int := -1

  datatype IndexEntry = IndexEntry(firstKey: Key, page: int)

  datatype Header = Header(
    numEntries: int, minKey: Key, maxKey: Key,
    numDataPages: int, firstDataPage: int,
    numIndexEntries: int, firstIndexPage: int,
    bloomLength: int, bloomBits: int, bloomHashes: int, firstBloomPage: int)

  datatype Page =
    | HeaderPage(header: Header)
    | DataPage(entries: seq<Item>)
    | IndexPage(index: seq<IndexEntry>)
    | BloomPage(bits: seq<bool>)

  // ---------------------------------------------------------------------
  // The Bloom filter
  // ---------------------------------------------------------------------

  /** The hash; nothing depends on which function it is. */
  type Mix = (int, int) -> nat

  const SEED1: int := 0x9E3779B97F4A7C15
  const SEED2: int := 0xC2B2AE3D27D4EB4F

  function BitIndex(mix: Mix, key: Key, i: nat, numBits: nat): (b: nat)
    requires numBits > 0
    ensures b < numBits
  {
    ((mix(key, SEED1) + i * mix(key, SEED2)) % 0x1_0000_0000_0000_0000) % numBits
  }

  /** Every bit the key hashes to is set. */
  ghost predicate BitsCover(bits: seq<bool>, numBits: nat, numHashes: nat, mix: Mix, key: Key) {
    0 < numBits <= |bits| && forall i | 0 <= i < numHashes :: bits[BitIndex(mix, key, i, numBits)]
  }

  /** Bits are numbered across the filter's bytes. */
  class BloomFilter {
    var bits: seq<bool>
    const numBits: nat
    const numHashes: nat
    const mix: Mix

    ghost predicate Valid()
      reads this
    {
      0 < numBits <= |bits|
    }

    ghost predicate Covers(key: Key)
      reads this
    {
      BitsCover(bits, numBits, numHashes, mix, key)
    }

    constructor (numBits: nat, numHashes: nat, mix: Mix)
      requires numBits > 0
      ensures Valid() && this.numBits == numBits && this.numHashes == numHashes && this.mix == mix
    {
      this.numBits, this.numHashes, this.mix := numBits, numHashes, mix;
      bits := seq((numBits + 7) / 8 * 8, _ => false);
    }

    constructor FromBits(bits: seq<bool>, numBits: nat, numHashes: nat, mix: Mix)
      requires 0 < numBits <= |bits|
      ensures Valid() && this.bits == bits && this.numBits == numBits && this.numHashes == numHashes && this.mix == mix
    {
      this.bits, this.numBits, this.numHashes, this.mix := bits, numBits, numHashes, mix;
    }

    /** Adding a key covers it and uncovers nothing. */
    method Add(key: Key)
      requires Valid()
      modifies this
      ensures Valid() && |bits| == |old(bits)| && Covers(key)
      ensures forall q | old(Covers(q)) :: Covers(q)
    {
      var i := 0;
      while i < numHashes
        invariant 0 <= i <= numHashes && |bits| == |old(bits)|
        invariant forall j | 0 <= j < i :: bits[BitIndex(mix, key, j, numBits)]
        invariant forall b | 0 <= b < |bits| :: old(bits)[b] ==> bits[b]
      {
        bits := bits[BitIndex(mix, key, i, numBits) := true];
        i := i + 1;
      }
    }

    method MightContain(key: Key) returns (r: bool)
      requires Valid()
      ensures r <==> Covers(key)
    {
      var i := 0;
      while i < numHashes
        invariant 0 <= i <= numHashes
        invariant forall j | 0 <= j < i :: bits[BitIndex(mix, key, j, numBits)]
      {
        if !bits[BitIndex(mix, key, i, numBits)] {
          return false;
        }
        i := i + 1;
      }
      r := true;
    }
  }

  // ---------------------------------------------------------------------
  // Packing a sequence into pages
  // ---------------------------------------------------------------------

  function Concat<T>(pages: seq<seq<T>>): seq<T> {
    if pages == [] then [] else pages[0] + Concat(pages[1..])
  }

  ghost predicate NoneEmpty<T>(pages: seq<seq<T>>) {
    forall p | 0 <= p < |pages| :: pages[p] != []
  }

  lemma {:induction false} ConcatSplit<T>(x: seq<seq<T>>, y: seq<seq<T>>)
    ensures Concat(x + y) == Concat(x) + Concat(y)
  {
    if x == [] {
      assert x + y == y;
    } else {
      assert (x + y)[1..] == x[1..] + y;
      ConcatSplit(x[1..], y);
    }
  }

  lemma ConcatAround<T>(pages: seq<seq<T>>, p: nat)
    requires p < |pages|
    ensures Concat(pages) == Concat(pages[..p]) + pages[p] + Concat(pages[p + 1..])
  {
    assert pages == pages[..p] + pages[p..] && pages[p..][1..] == pages[p + 1..];
    ConcatSplit(pages[..p], pages[p..]);
  }

  lemma ConcatNext<T>(pages: seq<seq<T>>, page: seq<T>)
    ensures Concat(pages + [page]) == Concat(pages) + page
  {
    ConcatSplit(pages, [page]);
    assert Concat([page]) == page + Concat([]);
  }

  /** Fills one page after another. */
  method Pack<T>(items: seq<T>, perPage: nat) returns (pages: seq<seq<T>>)
    requires perPage > 0
    ensures Concat(pages) == items && NoneEmpty(pages)
    ensures forall p | 0 <= p < |pages| :: |pages[p]| <= perPage
  {
    pages := [];
    var i := 0;
    while i < |items|
      invariant 0 <= i <= |items| && Concat(pages) == items[..i] && NoneEmpty(pages)
      invariant forall p | 0 <= p < |pages| :: |pages[p]| <= perPage
    {
      var start := i;
      var page := [];
      while i < |items| && |page| < perPage
        invariant start <= i <= |items| && page == items[start..i] && |page| <= perPage
      {
        page := page + [items[i]];
        i := i + 1;
      }
      ConcatNext(pages, page);
      assert items[..start] + page == items[..i];
      pages := pages + [page];
    }
  }

  // ---------------------------------------------------------------------
  // Building a file
  // ---------------------------------------------------------------------

  /** What a file is made of. */
  datatype Parts = Parts(data: seq<seq<Item>>, index: seq<seq<IndexEntry>>, bloom: seq<seq<bool>>)

  ghost predicate IndexFor(index: seq<IndexEntry>, data: seq<seq<Item>>) {
    && NoneEmpty(data) && |index| == |data|
    && forall p | 0 <= p < |data| :: index[p] == IndexEntry(data[p][0].key, 1 + p)
  }

  function FirstPage(count: nat, at: nat): int {
    if count == 0 then INVALID_PAGE else at
  }

  ghost predicate HeaderFor(h: Header, entries: seq<Item>, parts: Parts) {
    var d, x := |parts.data|, |parts.index|;
    && h.numEntries == |entries|
    && h.minKey == (if entries == [] then 0 else entries[0].key)
    && h.maxKey == (if entries == [] then 0 else entries[|entries| - 1].key)
    && h.numDataPages == d && h.firstDataPage == FirstPage(d, 1)
    && h.numIndexEntries == d && h.firstIndexPage == FirstPage(x, 1 + d)
    && h.firstBloomPage == FirstPage(|parts.bloom|, 1 + d + x)
    && h.bloomLength == |Concat(parts.bloom)| && 0 < h.bloomBits <= h.bloomLength && h.bloomHashes >= 0
  }

  /** The pages of a file, in the order they are allocated. */
  ghost predicate Laid(file: seq<Page>, parts: Parts) {
    var d, x, b := |parts.data|, |parts.index|, |parts.bloom|;
    && |file| == 1 + d + x + b && file[0].HeaderPage?
    && (forall p | 0 <= p < d :: file[1 + p] == DataPage(parts.data[p]))
    && (forall p | 0 <= p < x :: file[1 + d + p] == IndexPage(parts.index[p]))
    && (forall p | 0 <= p < b :: file[1 + d + x + p] == BloomPage(parts.bloom[p]))
  }

  ghost predicate FileFor(file: seq<Page>, entries: seq<Item>, mix: Mix, parts: Parts) {
    && Laid(file, parts) && Concat(parts.data) == entries && IndexFor(Concat(parts.index), parts.data)
    && NoneEmpty(parts.index) && NoneEmpty(parts.bloom)
    && var h := file[0].header;
       && HeaderFor(h, entries, parts)
       && forall a | 0 <= a < |entries| ::
            BitsCover(Concat(parts.bloom), h.bloomBits, h.bloomHashes, mix, entries[a].key)
  }

  predicate Fits(v: Val) {
    v.Live? ==> |v.text| <= MAX_VALUE_SIZE
  }

  /** Appends the data pages, noting the first key and the id of each. */
  method WriteData(file: seq<Page>, data: seq<seq<Item>>) returns (file': seq<Page>, index: seq<IndexEntry>)
    requires |file| == 1 && NoneEmpty(data)
    ensures |file'| == 1 + |data| && file'[0] == file[0]
    ensures forall p | 0 <= p < |data| :: file'[1 + p] == DataPage(data[p])
    ensures IndexFor(index, data)
  {
    file', index := file, [];
    var p := 0;
    while p < |data|
      invariant 0 <= p <= |data| && |file'| == 1 + p && file'[0] == file[0] && |index| == p
      invariant forall q | 0 <= q < p :: file'[1 + q] == DataPage(data[q])
      invariant forall q | 0 <= q < p :: index[q] == IndexEntry(data[q][0].key, 1 + q)
    {
      index := index + [IndexEntry(data[p][0].key, |file'|)];
      file' := file' + [DataPage(data[p])];
      p := p + 1;
    }
  }

  method WriteIndex(file: seq<Page>, index: seq<seq<IndexEntry>>) returns (file': seq<Page>)
    ensures |file'| == |file| + |index| && file' [..|file|] == file
    ensures forall p | 0 <= p < |index| :: file'[|file| + p] == IndexPage(index[p])
  {
    file' := file;
    var p := 0;
    while p < |index|
      invariant 0 <= p <= |index| && |file'| == |file| + p && file'[..|file|] == file
      invariant forall q | 0 <= q < p :: file'[|file| + q] == IndexPage(index[q])
    {
      file' := file' + [IndexPage(index[p])];
      p := p + 1;
    }
  }

  method WriteBloom(file: seq<Page>, bloom: seq<seq<bool>>) returns (file': seq<Page>)
    ensures |file'| == |file| + |bloom| && file' [..|file|] == file
    ensures forall p | 0 <= p < |bloom| :: file'[|file| + p] == BloomPage(bloom[p])
  {
    file' := file;
    var p := 0;
    while p < |bloom|
      invariant 0 <= p <= |bloom| && |file'| == |file| + p && file'[..|file|] == file
      invariant forall q | 0 <= q < p :: file'[|file| + q] == BloomPage(bloom[q])
    {
      file' := file' + [BloomPage(bloom[p])];
      p := p + 1;
    }
  }

  /** The filter over all keys, unless a value is too long. */
  method BuildBloom(entries: seq<Item>, numBits: nat, numHashes: nat, mix: Mix) returns (ok: bool, bits: seq<bool>)
    requires numBits > 0
    ensures ok <==> forall a | 0 <= a < |entries| :: Fits(entries[a].val)
    ensures ok ==> numBits <= |bits|
                   && forall a | 0 <= a < |entries| :: BitsCover(bits, numBits, numHashes, mix, entries[a].key)
  {
    var bloom := new BloomFilter(numBits, numHashes, mix);
    var i := 0;
    while i < |entries|
      invariant 0 <= i <= |entries| && bloom.Valid() && fresh(bloom)
      invariant forall a | 0 <= a < i :: Fits(entries[a].val) && bloom.Covers(entries[a].key)
    {
      if !Fits(entries[i].val) {
        return false, [];
      }
      bloom.Add(entries[i].key);
      i := i + 1;
    }
    return true, bloom.bits;
  }

  method Build(entries: seq<Item>, numBits: nat, numHashes: nat, mix: Mix)
    returns (ok: bool, file: seq<Page>, ghost parts: Parts)
    requires numBits > 0
    ensures ok <==> forall a | 0 <= a < |entries| :: Fits(entries[a].val)
    ensures ok ==> FileFor(file, entries, mix, parts)
  {
    var bits;
    parts := Parts([], [], []);
    ok, bits := BuildBloom(entries, numBits, numHashes, mix);
    if !ok {
      return false, [], parts;
    }
    var noHeader := HeaderPage(Header(0, 0, 0, 0, 0, 0, 0, 0, 0, 0, 0));
    var data := Pack(entries, ENTRIES_PER_PAGE);
    var file1, index := WriteData([noHeader], data);
    var indexPages := Pack(index, INDEX_PER_PAGE);
    var file2 := WriteIndex(file1, indexPages);
    var bloomPages := Pack(bits, 8 * PAGE_SIZE);
    var file3 := WriteBloom(file2, bloomPages);
    parts := Parts(data, indexPages, bloomPages);
    var header := Header(|entries|,
                         if entries == [] then 0 else entries[0].key,
                         if entries == [] then 0 else entries[|entries| - 1].key,
                         |data|, FirstPage(|data|, 1),
                         |index|, FirstPage(|indexPages|, |file1|),
                         |bits|, numBits, numHashes, FirstPage(|bloomPages|, |file2|));
    file := file3[0 := HeaderPage(header)];
    assert file[1..|file2|] == file2[1..] by { assert file3[..|file2|][1..] == file2[1..]; }
    LaidInOrder(file1, file2, file, parts);
  }

  /** Data pages after the header, index pages after those, filter pages last. */
  lemma LaidInOrder(file1: seq<Page>, file2: seq<Page>, file: seq<Page>, parts: Parts)
    requires |file1| == 1 + |parts.data| && forall p | 0 <= p < |parts.data| :: file1[1 + p] == DataPage(parts.data[p])
    requires |file2| == |file1| + |parts.index| && file2[..|file1|] == file1
    requires forall p | 0 <= p < |parts.index| :: file2[|file1| + p] == IndexPage(parts.index[p])
    requires |file| == |file2| + |parts.bloom| && file[0].HeaderPage? && file[1..|file2|] == file2[1..]
    requires forall p | 0 <= p < |parts.bloom| :: file[|file2| + p] == BloomPage(parts.bloom[p])
    ensures Laid(file, parts)
  {
    var d := |parts.data|;
    forall p | 0 <= p < d ensures file[1 + p] == DataPage(parts.data[p]) {
      assert file[1..|file2|][p] == file2[1..][p] && file2[..|file1|][1 + p] == file1[1 + p];
    }
    forall p | 0 <= p < |parts.index| ensures file[1 + d + p] == IndexPage(parts.index[p]) {
      assert file[1..|file2|][d + p] == file2[1..][d + p];
    }
  }

  // ---------------------------------------------------------------------
  // Finding the page of a key
  // ---------------------------------------------------------------------

  lemma ConcatKeys(pages: seq<seq<Item>>, p: nat, a: nat)
    requires p < |pages| && a < |pages[p]|
    ensures |Concat(pages[..p])| + a < |Concat(pages)|
    ensures Concat(pages)[|Concat(pages[..p])| + a] == pages[p][a]
  {
    ConcatAround(pages, p);
  }

  /** Pages of an ascending run: what comes before page `p` is below its first key,
      what comes after is at or above the first key of the next page. */
  lemma PageBounds(pages: seq<seq<Item>>, p: nat)
    requires NoneEmpty(pages) && Ascending(Concat(pages)) && p < |pages|
    ensures Ascending(pages[p])
    ensures forall a | 0 <= a < |Concat(pages[..p])| :: Concat(pages[..p])[a].key < pages[p][0].key
    ensures p + 1 < |pages| ==> var after := Concat(pages[p + 1..]);
                                forall a | 0 <= a < |after| :: pages[p + 1][0].key <= after[a].key
    ensures p > 0 ==> pages[0][0].key < pages[p][0].key
  {
    var all, before, after := Concat(pages), Concat(pages[..p]), Concat(pages[p + 1..]);
    ConcatAround(pages, p);
    assert all[|before|] == pages[p][0];
    forall a | 0 <= a < |before| ensures before[a].key < pages[p][0].key {
      assert all[a] == before[a];
    }
    forall a, b | 0 <= a < b < |pages[p]| ensures pages[p][a].key < pages[p][b].key {
      assert all[|before| + a] == pages[p][a] && all[|before| + b] == pages[p][b];
    }
    if p + 1 < |pages| {
      var n := |before| + |pages[p]|;
      assert after[0] == pages[p + 1][0];
      forall a | 0 <= a < |after| ensures pages[p + 1][0].key <= after[a].key {
        assert all[n + a] == after[a] && all[n] == after[0];
      }
    }
    if p > 0 { assert before[0] == pages[0][0]; }
  }

  lemma LastKey(pages: seq<seq<Item>>)
    requires NoneEmpty(pages) && pages != []
    ensures Concat(pages) != []
    ensures var all, last := Concat(pages), pages[|pages| - 1]; all[|all| - 1] == last[|last| - 1]
  {
    ConcatAround(pages, |pages| - 1);
  }

  /** A run's part from `start` on, when it begins in page `p` or right after it. */
  lemma FromPage(pages: seq<seq<Item>>, p: nat, index: nat, start: Key)
    requires Ascending(Concat(pages)) && p < |pages| && index <= |pages[p]|
    requires forall a | 0 <= a < index :: pages[p][a].key < start
    requires var before := Concat(pages[..p]); forall a | 0 <= a < |before| :: before[a].key < start
    requires if index < |pages[p]| then start <= pages[p][index].key
             else var after := Concat(pages[p + 1..]); after == [] || start <= after[0].key
    ensures From(Concat(pages), start) == pages[p][index..] + Concat(pages[p + 1..])
  {
    var all, before, page, after := Concat(pages), Concat(pages[..p]), pages[p], Concat(pages[p + 1..]);
    var i := |before| + index;
    ConcatAround(pages, p);
    forall a | 0 <= a < i ensures all[a].key < start {
      assert all[a] == if a < |before| then before[a] else page[a - |before|];
    }
    if i < |all| { assert all[i] == if index < |page| then page[index] else after[0]; }
    PlaceIs(all, start, i);
    assert all[i..] == page[index..] + after;
  }

  /** The page the sparse index points to decides a lookup. */
  lemma PageDecides(pages: seq<seq<Item>>, p: nat, k: Key)
    requires NoneEmpty(pages) && Ascending(Concat(pages)) && p < |pages|
    requires p > 0 ==> pages[p][0].key <= k
    requires p + 1 < |pages| ==> k < pages[p + 1][0].key
    ensures Find(Concat(pages), k) == Find(pages[p], k)
  {
    var before, after := Concat(pages[..p]), Concat(pages[p + 1..]);
    PageBounds(pages, p);
    ConcatAround(pages, p);
    FindConcat(before + pages[p], after, k);
    FindConcat(before, pages[p], k);
    FindNone(before, k);
    FindNone(after, k);
  }

  /** A position in the data pages. */
  datatype Cursor = End | At(pos: nat, index: nat)

  class SSTable {
    const file: seq<Page>
    const numEntries: int
    const minKey: Key
    const maxKey: Key
    const numDataPages: int
    const firstDataPage: int
    var sparseIndex: seq<IndexEntry>
    var bloom: BloomFilter
    ghost var data: seq<seq<Item>>

    /** The run the table was built from. */
    ghost function Entries(): seq<Item>
      reads this
    {
      Concat(data)
    }

    ghost predicate Valid()
      reads this, bloom
    {
      && NoneEmpty(data) && Ascending(Entries()) && IndexFor(sparseIndex, data)
      && numEntries == |Entries()| && numDataPages == |data| && firstDataPage == FirstPage(|data|, 1)
      && (Entries() != [] ==> minKey == Entries()[0].key && maxKey == Entries()[|Entries()| - 1].key)
      && (forall p | 0 <= p < |data| :: 1 + p < |file| && file[1 + p] == DataPage(data[p]))
      && bloom.Valid() && forall a | 0 <= a < |Entries()| :: bloom.Covers(Entries()[a].key)
    }

    /** Opens a file that holds the run `entries`. */
    constructor (file: seq<Page>, mix: Mix, ghost entries: seq<Item>, ghost parts: Parts)
      requires FileFor(file, entries, mix, parts) && Ascending(entries)
      ensures Valid() && Entries() == entries && fresh(bloom)
    {
      var h := file[0].header;
      var index := ReadIndex(file, h, parts);
      var bits := ReadBloom(file, h, parts);
      this.file := file;
      numEntries, minKey, maxKey := h.numEntries, h.minKey, h.maxKey;
      numDataPages, firstDataPage := h.numDataPages, h.firstDataPage;
      sparseIndex := index;
      bloom := new BloomFilter.FromBits(bits, h.bloomBits, h.bloomHashes, mix);
      data := parts.data;
    }

    method MightContain(key: Key) returns (r: bool)
      requires Valid()
      ensures !r ==> Find(Entries(), key) == None
    {
      if numEntries == 0 || key < minKey || key > maxKey {
        OutOfBounds(key);
        return false;
      }
      r := bloom.MightContain(key);
      if !r {
        NotCovered(key);
      }
    }

    lemma OutOfBounds(key: Key)
      requires Valid() && (numEntries == 0 || key < minKey || key > maxKey)
      ensures Find(Entries(), key) == None
    {
      var es := Entries();
      forall a | 0 <= a < |es| ensures es[a].key != key {
        assert a > 0 ==> es[0].key < es[a].key;
        assert a < |es| - 1 ==> es[a].key < es[|es| - 1].key;
      }
      FindNone(es, key);
    }

    lemma NotCovered(key: Key)
      requires Valid() && !bloom.Covers(key)
      ensures Find(Entries(), key) == None
    {
      FindNone(Entries(), key);
    }

    /** The last data page whose first key does not exceed `key`, or the first page. */
    method FindPagePos(key: Key) returns (pos: nat)
      requires Valid() && data != []
      ensures pos < |data|
      ensures pos > 0 ==> data[pos][0].key <= key
      ensures pos + 1 < |data| ==> key < data[pos + 1][0].key
    {
      var lo, hi := 0, |sparseIndex|;
      while lo < hi
        invariant 0 <= lo <= hi <= |data|
        invariant lo > 0 ==> data[lo - 1][0].key <= key
        invariant hi < |data| ==> key < data[hi][0].key
      {
        var mid := (lo + hi) / 2;
        if key < sparseIndex[mid].firstKey {
          hi := mid;
        } else {
          lo := mid + 1;
        }
      }
      if lo == 0 && |data| > 1 { PageBounds(data, 1); }
      pos := if lo == 0 then 0 else lo - 1;
    }

    method Lookup(key: Key) returns (r: Option<Val>)
      requires Valid()
      ensures r == Find(Entries(), key)
    {
      var might := MightContain(key);
      if !might {
        return None;
      }
      if numEntries == 0 {
        return None;
      }
      assert data != [];
      var pos := FindPagePos(key);
      PageDecides(data, pos, key);
      PageBounds(data, pos);
      var page := file[sparseIndex[pos].page].entries;
      var i := LowerBound(page, key);
      if i < |page| && page[i].key == key {
        FindAt(page, i);
        return Some(page[i].val);
      }
      FindNone(page, key);
      r := None;
    }

    // -------------------------------------------------------------------
    // Iteration
    // -------------------------------------------------------------------

    ghost predicate InTable(c: Cursor)
      reads this
    {
      c.At? ==> c.pos < |data| && c.index < |data[c.pos]|
    }

    /** What a cursor has yet to yield. */
    ghost function Rest(c: Cursor): seq<Item>
      requires InTable(c)
      reads this
    {
      if c.End? then [] else data[c.pos][c.index..] + Concat(data[c.pos + 1..])
    }

    /** A cursor at the first key that is not below `start`. */
    method NewIterator(start: Key) returns (c: Cursor)
      requires Valid()
      ensures InTable(c) && Rest(c) == From(Entries(), start)
    {
      if numEntries == 0 || start > maxKey {
        StartsPastEnd(start);
        return End;
      }
      assert data != [];
      var pos := FindPagePos(if start > minKey then start else minKey);
      var page := file[sparseIndex[pos].page].entries;
      PageBounds(data, pos);
      var index := LowerBound(page, start);
      StartsAt(start, pos, index);
      if index >= |page| {
        pos := pos + 1;
        index := 0;
      }
      c := At(pos, index);
    }

    lemma StartsPastEnd(start: Key)
      requires Valid() && (numEntries == 0 || start > maxKey)
      ensures From(Entries(), start) == []
    {
      var es := Entries();
      forall a | 0 <= a < |es| ensures es[a].key < start {
        assert a < |es| - 1 ==> es[a].key < es[|es| - 1].key;
      }
      PlaceIs(es, start, |es|);
    }

    /** The lower bound in the indexed page, or failing that the head of the next page,
        is where the run from `start` begins. */
    lemma StartsAt(start: Key, pos: nat, index: nat)
      requires Valid() && pos < |data| && index <= |data[pos]| && start <= maxKey
      requires forall a | 0 <= a < index :: data[pos][a].key < start
      requires index < |data[pos]| ==> start <= data[pos][index].key
      requires pos > 0 ==> data[pos][0].key <= if start > minKey then start else minKey
      requires pos + 1 < |data| ==> start < data[pos + 1][0].key
      ensures From(Entries(), start) == data[pos][index..] + Concat(data[pos + 1..])
      ensures index == |data[pos]| ==> pos + 1 < |data|
      ensures pos + 1 < |data| ==> Concat(data[pos + 1..]) == data[pos + 1] + Concat(data[pos + 2..])
    {
      PageBounds(data, pos);
      if pos > 0 { ConcatKeys(data, 0, 0); }
      if pos + 1 < |data| {
        assert data[pos + 1..][1..] == data[pos + 2..];
      } else {
        LastKey(data);
      }
      FromPage(data, pos, index, start);
    }

    method Next(c: Cursor) returns (c': Cursor)
      requires Valid() && c.At? && InTable(c)
      ensures InTable(c') && Rest(c') == Rest(c)[1..]
    {
      ghost var page, after := data[c.pos], Concat(data[c.pos + 1..]);
      if c.index + 1 < |file[firstDataPage + c.pos].entries| {
        assert (page[c.index..] + after)[1..] == page[c.index + 1..] + after;
        c' := At(c.pos, c.index + 1);
      } else if c.pos + 1 >= numDataPages {
        assert (page[c.index..] + after)[1..] == [];
        c' := End;
      } else {
        assert data[c.pos + 1..][1..] == data[c.pos + 2..];
        assert (page[c.index..] + after)[1..] == after;
        c' := At(c.pos + 1, 0);
      }
    }

    function ItemAt(c: Cursor): (e: Item)
      requires Valid() && c.At? && InTable(c)
      reads this, bloom
      ensures e == Rest(c)[0]
    {
      file[firstDataPage + c.pos].entries[c.index]
    }
  }

  /** First position of a page whose key is not below `key`. */
  method LowerBound(page: seq<Item>, key: Key) returns (i: nat)
    requires Ascending(page)
    ensures i <= |page|
    ensures (forall a | 0 <= a < i :: page[a].key < key) && forall a | i <= a < |page| :: key <= page[a].key
  {
    var lo, hi := 0, |page|;
    while lo < hi
      invariant 0 <= lo <= hi <= |page|
      invariant forall a | 0 <= a < lo :: page[a].key < key
      invariant forall a | hi <= a < |page| :: key <= page[a].key
    {
      var mid := (lo + hi) / 2;
      if page[mid].key < key {
        lo := mid + 1;
      } else {
        hi := mid;
      }
    }
    i := lo;
  }

  /** Reads index pages, from the first one on, until all entries are there. */
  method ReadIndex(file: seq<Page>, h: Header, ghost parts: Parts) returns (index: seq<IndexEntry>)
    requires Laid(file, parts) && NoneEmpty(parts.index)
    requires h.numIndexEntries == |Concat(parts.index)|
    requires h.firstIndexPage == FirstPage(|parts.index|, 1 + |parts.data|)
    ensures index == Concat(parts.index)
  {
    index := [];
    ghost var p := 0;
    var remaining, pid := h.numIndexEntries, h.firstIndexPage;
    while remaining > 0
      invariant 0 <= p <= |parts.index| && index == Concat(parts.index[..p])
      invariant remaining == |Concat(parts.index)| - |index| && (p < |parts.index| ==> pid == 1 + |parts.data| + p)
      decreases remaining
    {
      MorePages(parts.index, p);
      assert file[pid] == IndexPage(parts.index[p]);
      var page := file[pid].index;
      assert parts.index[..p + 1] == parts.index[..p] + [page];
      ConcatNext(parts.index[..p], page);
      ConcatAround(parts.index, p);
      index := index + page;
      remaining := remaining - |page|;
      pid := pid + 1;
      p := p + 1;
    }
    ReadAll(parts.index, p);
  }

  method ReadBloom(file: seq<Page>, h: Header, ghost parts: Parts) returns (bits: seq<bool>)
    requires Laid(file, parts) && NoneEmpty(parts.bloom)
    requires h.bloomLength == |Concat(parts.bloom)|
    requires h.firstBloomPage == FirstPage(|parts.bloom|, 1 + |parts.data| + |parts.index|)
    ensures bits == Concat(parts.bloom)
  {
    bits := [];
    ghost var p := 0;
    var pid := h.firstBloomPage;
    while |bits| < h.bloomLength
      invariant 0 <= p <= |parts.bloom| && bits == Concat(parts.bloom[..p])
      invariant p < |parts.bloom| ==> pid == 1 + |parts.data| + |parts.index| + p
      decreases |parts.bloom| - p
    {
      MorePages(parts.bloom, p);
      assert file[pid] == BloomPage(parts.bloom[p]);
      var page := file[pid].bits;
      assert parts.bloom[..p + 1] == parts.bloom[..p] + [page];
      ConcatNext(parts.bloom[..p], page);
      bits := bits + page;
      pid := pid + 1;
      p := p + 1;
    }
    ReadAll(parts.bloom, p);
  }

  lemma MorePages<T>(pages: seq<seq<T>>, p: nat)
    requires p <= |pages| && |Concat(pages[..p])| < |Concat(pages)|
    ensures p < |pages|
  {
    assert pages[..|pages|] == pages;
  }

  /** Having read as many elements as there are, one has read every page. */
  lemma ReadAll<T>(pages: seq<seq<T>>, p: nat)
    requires NoneEmpty(pages) && p <= |pages| && |Concat(pages[..p])| >= |Concat(pages)|
    ensures Concat(pages[..p]) == Concat(pages)
  {
    if p < |pages| {
      ConcatAround(pages, p);
    } else {
      assert pages[..p] == pages;
    }
  }

  /** Build, then open: the table is the run. */
  method BuildAndOpen(entries: seq<Item>, numBits: nat, numHashes: nat, mix: Mix) returns (t: SSTable?)
    requires Ascending(entries) && numBits > 0
    ensures t != null <==> forall a | 0 <= a < |entries| :: Fits(entries[a].val)
    ensures t != null ==> t.Valid() && t.Entries() == entries && fresh(t)
  {
    var ok, file, parts := Build(entries, numBits, numHashes, mix);
    if !ok {
      return null;
    }
    t := new SSTable(file, mix, entries, parts);
  }
}

/**
 The paged log file: fixed-size records, a fixed number of them to a page, so that
 a log sequence number is a page and an index. It refines an append-only sequence,
 and the file can be reopened after any page write.
 */
module WalLogManager {
  const RECORDS_PER_PAGE: int := 20

  datatype Stamped<T> = Stamped(lsn: int, record: T)

  /** The records of page `p` when the log is `log`. */
  function PageOf<T>(log: seq<T>, p: nat): seq<T>
    requires p * RECORDS_PER_PAGE <= |log|
  {
    var lo := p * RECORDS_PER_PAGE;
    if lo + RECORDS_PER_PAGE <= |log| then log[lo..lo + RECORDS_PER_PAGE] else log[lo..]
  }

  function NumPages(n: nat): nat {
    (n + RECORDS_PER_PAGE - 1) / RECORDS_PER_PAGE
  }

  /** The file holds exactly the log: full pages, then possibly a part of one. */
  ghost predicate FileHolds<T>(file: seq<seq<T>>, log: seq<T>) {
    |file| == NumPages(|log|) && forall p {:trigger PageHolds(file, log, p)} | 0 <= p < |file| :: PageHolds(file, log, p)
  }

  ghost predicate PageHolds<T>(file: seq<seq<T>>, log: seq<T>, p: nat)
    requires p < |file|
  {
    p * RECORDS_PER_PAGE <= |log| && file[p] == PageOf(log, p)
  }

  /** A file holds one log only. */
  lemma FileDetermines<T>(file: seq<seq<T>>, x: seq<T>, y: seq<T>)
    requires FileHolds(file, x) && FileHolds(file, y)
    ensures x == y
  {
    if |file| > 0 {
      var p := |file| - 1;
      assert PageHolds(file, x, p) && PageHolds(file, y, p);
      assert |PageOf(x, p)| == |x| - p * RECORDS_PER_PAGE && |PageOf(y, p)| == |y| - p * RECORDS_PER_PAGE;
    }
    forall i | 0 <= i < |x| ensures x[i] == y[i] {
      AtPage(file, x, i);
      AtPage(file, y, i);
    }
  }

  lemma AtPage<T>(file: seq<seq<T>>, log: seq<T>, i: nat)
    requires FileHolds(file, log) && i < |log|
    ensures var p, x := i / RECORDS_PER_PAGE, i % RECORDS_PER_PAGE;
            p < |file| && x < |file[p]| && file[p][x] == log[i]
  {
    var p := i / RECORDS_PER_PAGE;
    assert PageHolds(file, log, p);
  }

  class LogManager<T> {
    /** The pages on disk. */
    var file: seq<seq<Stamped<T>>>
    var currentPage: nat
    var buffer: seq<Stamped<T>>
    var nextLsn: nat
    ghost var log: seq<Stamped<T>>

    ghost predicate Valid()
      reads this
    {
      && FileHolds(file, log) && nextLsn == |log| && (forall i | 0 <= i < |log| :: log[i].lsn == i)
      && currentPage == (if file == [] then 0 else |file| - 1)
      && buffer == if file == [] then [] else file[|file| - 1]
    }

    /** Opens a file that holds `log`; a new file holds the empty log. */
    constructor (file: seq<seq<Stamped<T>>>, ghost log: seq<Stamped<T>>)
      requires FileHolds(file, log) && forall i | 0 <= i < |log| :: log[i].lsn == i
      ensures Valid() && this.log == log && nextLsn == |log|
    {
      this.file, this.log := file, log;
      if |file| == 0 {
        currentPage, buffer, nextLsn := 0, [], 0;
      } else {
        assert PageHolds(file, log, |file| - 1);
        currentPage := |file| - 1;
        buffer := file[|file| - 1];
        nextLsn := (|file| - 1) * RECORDS_PER_PAGE + |file[|file| - 1]|;
      }
    }

    /** Appends a record. `images` are the files after each page write: whichever the
        process dies with, the file holds the old log or the new one. */
    method Append(record: T) returns (lsn: nat, ghost images: seq<seq<seq<Stamped<T>>>>)
      requires Valid()
      modifies this
      ensures Valid() && lsn == |old(log)| && log == old(log) + [Stamped(lsn, record)]
      ensures forall m | 0 <= m < |images| :: FileHolds(images[m], old(log)) || FileHolds(images[m], log)
      ensures images != [] && images[|images| - 1] == file
    {
      lsn := nextLsn;
      images := [];
      BufferIsLastPage();
      ghost var p := |log| / RECORDS_PER_PAGE;
      if file != [] { assert PageHolds(file, log, currentPage); }
      if |buffer| >= RECORDS_PER_PAGE {
        file := file[currentPage := buffer];
        images := [file];
        currentPage := currentPage + 1;
        buffer := [];
      }
      assert currentPage == p && (p < |file| ==> buffer == PageOf(log, p)) && (p == |file| ==> buffer == []);
      buffer := buffer + [Stamped(lsn, record)];
      assert p == |file| ==> buffer == [Stamped(lsn, record)];
      ghost var file0 := file;
      file := if currentPage < |file| then file[currentPage := buffer] else file + [buffer];
      nextLsn := nextLsn + 1;
      log := log + [Stamped(lsn, record)];
      PageWritten(file0, old(log), Stamped(lsn, record), file);
      images := images + [file];
    }

    lemma BufferIsLastPage()
      requires Valid()
      ensures |buffer| == |log| - currentPage * RECORDS_PER_PAGE <= RECORDS_PER_PAGE
      ensures file != [] ==> file[currentPage := buffer] == file
    {
      if file != [] { assert PageHolds(file, log, currentPage); }
    }

    method ReadRecord(lsn: nat) returns (r: Stamped<T>)
      requires Valid() && lsn < nextLsn
      ensures r == log[lsn] && r.lsn == lsn
    {
      var page, index := lsn / RECORDS_PER_PAGE, lsn % RECORDS_PER_PAGE;
      AtPage(file, log, lsn);
      if page == currentPage {
        r := buffer[index];
      } else {
        r := file[page][index];
      }
    }

    /** The records from `start` on. */
    method ReadFrom(start: nat) returns (r: seq<Stamped<T>>)
      requires Valid()
      ensures r == if start < |log| then log[start..] else []
    {
      r := [];
      if start >= nextLsn {
        return;
      }
      var lsn := start;
      while lsn < nextLsn
        invariant start <= lsn <= |log| && r == log[start..lsn]
        decreases nextLsn - lsn
      {
        var part := ReadRest(lsn);
        assert log[start..lsn] + log[lsn..lsn + |part|] == log[start..lsn + |part|];
        r := r + part;
        lsn := lsn + |part|;
      }
    }

    /** What the record's page holds from that record on. */
    method ReadRest(lsn: nat) returns (part: seq<Stamped<T>>)
      requires Valid() && lsn < nextLsn
      ensures 0 < |part| <= |log| - lsn && part == log[lsn..lsn + |part|]
    {
      var pid := lsn / RECORDS_PER_PAGE;
      AtPage(file, log, lsn);
      var page := if pid == currentPage then buffer else file[pid];
      part := ReadPage(page, lsn % RECORDS_PER_PAGE, nextLsn - lsn);
      PartOf(pid, page, lsn, part);
    }

    lemma PartOf(pid: nat, page: seq<Stamped<T>>, lsn: nat, part: seq<Stamped<T>>)
      requires Valid() && lsn < |log| && pid == lsn / RECORDS_PER_PAGE < |file| && page == file[pid]
      requires var i, limit := lsn % RECORDS_PER_PAGE, |log| - lsn;
               i < |page| && part == if limit < |page| - i then page[i..i + limit] else page[i..]
      ensures lsn + |part| <= |log| && part == log[lsn..lsn + |part|] && |part| > 0
    {
      assert PageHolds(file, log, pid);
    }
  }

  /** The records of a page from `index` on, at most `limit` of them. */
  method ReadPage<T>(page: seq<T>, index: nat, limit: nat) returns (part: seq<T>)
    requires index <= |page|
    ensures part == if limit < |page| - index then page[index..index + limit] else page[index..]
  {
    part := [];
    var i := index;
    while i < |page| && |part| < limit
      invariant index <= i <= |page| && part == page[index..i] && |part| <= limit
    {
      part := part + [page[i]];
      i := i + 1;
    }
  }

  /** Writing the page that holds the last record turns the old log's file into the
      new one's. */
  lemma PageWritten<T>(file: seq<seq<T>>, log: seq<T>, r: T, file': seq<seq<T>>)
    requires FileHolds(file, log)
    requires var p := |log| / RECORDS_PER_PAGE;
             && p <= |file|
             && file' == if p < |file| then file[p := PageOf(log, p) + [r]] else file + [[r]]
    ensures FileHolds(file', log + [r])
  {
    var p := |log| / RECORDS_PER_PAGE;
    forall q | 0 <= q < |file'| ensures PageHolds(file', log + [r], q) {
      if q < |file| { assert PageHolds(file, log, q); }
    }
  }
}

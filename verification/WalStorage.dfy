/**
 The engine's log as it is kept: in the pages of a log file. Each record the engine
 appends is a page write or two; whichever the process dies after, reopening the file
 and recovering gives the committed map.
 */
module WalStorage {
  import opened Common
  import opened WalLog
  import opened WalMachine
  import opened WalTheorems
  import opened WalLogManager
  import opened WalEngine

  type File = seq<seq<Stamped<Record>>>

  /** Each record with its LSN. */
  function Stamp(log: seq<Record>): (r: seq<Stamped<Record>>)
    ensures |r| == |log| && forall i | 0 <= i < |log| :: r[i] == Stamped(i, log[i])
  {
    seq(|log|, i requires 0 <= i < |log| => Stamped(i, log[i]))
  }

  lemma StampNext(log: seq<Record>, r: Record)
    ensures Stamp(log + [r]) == Stamp(log) + [Stamped(|log|, r)]
  {
  }

  /** What a process that has done `prior` may leave when it dies: its log file, a disk
      image and the checkpoint of its meta page. */
  ghost predicate Left(file: File, disk: Table, checkpoint: int, prior: seq<Action>) {
    Exec(prior).Some? &&
    var s := Exec(prior).value;
    FileHolds(file, Stamp(s.log)) && s.checkpoint == checkpoint && OnDisk(disk, s.versions)
  }

  /** An effect that appends to the log does nothing to tree, disk and meta page. */
  lemma AppendsOnly(s: State, a: Action)
    requires Enabled(s, a) && Appends(s, a).Some?
    ensures Do(s, a).log == s.log + [Appends(s, a).value]
    ensures Do(s, a).versions == s.versions && Do(s, a).checkpoint == s.checkpoint && Do(s, a).tree == s.tree
  {
  }

  /** The page writes of one effect. `images` are the files after each of them: whichever
      the process dies with, it leaves what it would have left before the effect or
      after it. */
  method AppendLogged(manager: LogManager<Record>, r: Record, ghost prior: seq<Action>, ghost a: Action)
    returns (lsn: nat, ghost images: seq<File>)
    requires manager.Valid() && Exec(prior).Some? && manager.log == Stamp(Exec(prior).value.log)
    requires Enabled(Exec(prior).value, a) && Appends(Exec(prior).value, a) == Some(r)
    modifies manager
    ensures manager.Valid() && lsn == |Exec(prior).value.log|
    ensures Exec(prior + [a]).Some? && manager.log == Stamp(Exec(prior + [a]).value.log)
    ensures images != [] && images[|images| - 1] == manager.file
    ensures forall i, disk | 0 <= i < |images| && OnDisk(disk, Exec(prior).value.versions) ::
              var checkpoint := Exec(prior).value.checkpoint;
              Left(images[i], disk, checkpoint, prior) || Left(images[i], disk, checkpoint, prior + [a])
  {
    ghost var s := Exec(prior).value;
    AppendsOnly(s, a);
    ExecSnoc(prior, s, a);
    StampNext(s.log, r);
    lsn, images := manager.Append(r);
  }

  /** The records without their LSNs. */
  method Unstamped(stamped: seq<Stamped<Record>>) returns (log: seq<Record>)
    ensures |log| == |stamped| && forall i | 0 <= i < |log| :: log[i] == stamped[i].record
  {
    log := [];
    var i := 0;
    while i < |stamped|
      invariant 0 <= i == |log| <= |stamped| && forall j | 0 <= j < i :: log[j] == stamped[j].record
    {
      log := log + [stamped[i].record];
      i := i + 1;
    }
  }

  /** Opens a database from its files, by the pages of its log. */
  method Reopen(file: File, disk: Table, checkpoint: int, interval: int, ghost prior: seq<Action>) returns (engine: Engine)
    requires Left(file, disk, checkpoint, prior)
    ensures fresh(engine) && engine.Ready() && engine.active == map[]
    ensures Disciplined(prior) ==>
              var committed := Committed(Exec(prior).value.log);
              engine.tree == committed && Committed(engine.log) == committed
  {
    ghost var s := Exec(prior).value;
    var manager := new LogManager(file, Stamp(s.log));
    var stamped := manager.ReadFrom(0);
    var log := Unstamped(stamped);
    assert stamped == Stamp(s.log) && log == s.log;
    engine := new Engine(log, disk, checkpoint, interval, prior);
  }

  /** Dying in the middle of an effect: the log is appended to, and the process dies with
      the file as it was before the page write or as it is after it. */
  method DieInAppend(manager: LogManager<Record>, r: Record, written: bool, disk: Table, checkpoint: int, interval: int,
                     ghost prior: seq<Action>, ghost a: Action) returns (engine: Engine)
    requires manager.Valid() && Exec(prior).Some? && manager.log == Stamp(Exec(prior).value.log)
    requires Enabled(Exec(prior).value, a) && Appends(Exec(prior).value, a) == Some(r) && Disciplined(prior + [a])
    requires checkpoint == Exec(prior).value.checkpoint && OnDisk(disk, Exec(prior).value.versions)
    modifies manager
    ensures engine.Ready() && engine.active == map[]
    ensures var s := Exec(prior).value;
            engine.tree == Committed(if written then Do(s, a).log else s.log)
    ensures !a.DoCommit? ==> engine.tree == Committed(Exec(prior).value.log)
  {
    ghost var s := Exec(prior).value;
    DropLast(prior, a);
    CommitIsAtomic(s, a);
    var before := manager.file;
    var lsn, images := AppendLogged(manager, r, prior, a);
    AppendsOnly(s, a);
    if written {
      engine := Reopen(manager.file, disk, checkpoint, interval, prior + [a]);
    } else {
      engine := Reopen(before, disk, checkpoint, interval, prior);
    }
  }
}

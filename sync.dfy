/**
 * The Transfer object: it owns the state table and runs, one at a time, the
 * passes that change it: the baseline walk at startup, the incremental walk of
 * each poll cycle, the scheduler pass, and the worker's reconciliation after a
 * copy. Walks arrive as the sequences of observations they delivered; the copy
 * arrives as its outcome, which is ignored.
 */
module Sync {
  import opened StatusTable
  import opened Scanner
  import opened Scheduler
  import opened Worker

  class Transfer {
    const src: Path
    const dst: Path
    /** The debounce threshold (the -count option). */
    const threshold: int
    const ignoreExisting: bool
    const table: FileStatusTable

    ghost predicate Valid()
      reads this, table
    {
      Consistent(table.entries)
    }

    constructor (src: Path, dst: Path, threshold: int, ignoreExisting: bool)
      ensures Valid() && fresh(table) && table.entries == map[]
      ensures this.src == src && this.dst == dst
      ensures this.threshold == threshold && this.ignoreExisting == ignoreExisting
    {
      this.src := src;
      this.dst := dst;
      this.threshold := threshold;
      this.ignoreExisting := ignoreExisting;
      table := new FileStatusTable();
    }

    /**
     * The baseline walk: every observed path is registered and forced Complete.
     * The result says whether the walk's error ends the process.
     */
    method InitExisting(walk: seq<Observation>, err: WalkError) returns (exits: bool)
      requires Valid()
      modifies table
      ensures Valid()
      ensures table.entries == Baseline(old(table.entries), walk)
      ensures forall i | 0 <= i < |walk| ::
                walk[i].path in table.entries && table.entries[walk[i].path].status == Complete
      ensures exits <==> err == NotExist
    {
      ghost var before := table.entries;
      var i := 0;
      while i < |walk|
        invariant 0 <= i <= |walk|
        invariant table.entries == Baseline(before, walk[..i])
      {
        BaselineStep(before, walk, i);
        RegisterExisting(walk[i]);
        i := i + 1;
      }
      assert walk[..i] == walk;
      BaselineComplete(before, walk);
      BaselineConsistent(before, walk);
      exits := err == NotExist;
    }

    /** The baseline walk's callback for one observation: Add, then SetStatus(Complete). */
    method RegisterExisting(o: Observation)
      modifies table
      ensures table.entries == Registered(old(table.entries), o.path, KindOf(o), o.size)
    {
      table.Add(o.path, KindOf(o), o.size);
      table.SetStatus(o.path, Complete);
    }

    /**
     * The incremental walk of one poll cycle. New directories are registered
     * with AddNewDirectory, new files Idle, and known files whose size changed
     * go back to Idle with count 0.
     */
    method UpdateFileStatus(visits: seq<Visit>, err: WalkError) returns (exits: bool)
      requires Valid()
      modifies table
      ensures Valid()
      ensures table.entries == UpdatePass(old(table.entries), src, visits)
      ensures old(table.entries).Keys <= table.entries.Keys
      ensures forall k | k in table.entries && (k !in old(table.entries) || table.entries[k] != old(table.entries)[k]) ::
                table.entries[k].status == Idle || table.entries[k].status == Complete
      ensures exits <==> err == NotExist
    {
      var i := 0;
      while i < |visits|
        invariant 0 <= i <= |visits|
        invariant table.entries == UpdatePass(old(table.entries), src, visits[..i])
      {
        var o := visits[i].entry;
        if o.path != src {
          if o.isDir {
            if !table.IsExists(o.path) {
              table.AddNewDirectory(o.path, visits[i].subtree);
            }
          } else {
            if !table.IsExists(o.path) {
              table.AddNewFile(o.path, o.size);
            } else if table.GetSize(o.path) != o.size {
              table.SetSize(o.path, o.size);
              table.SetStatus(o.path, Idle);
              table.ResetCount(o.path);
            }
          }
        }
        assert visits[..i + 1][..i] == visits[..i];
        i := i + 1;
      }
      assert visits[..i] == visits;
      UpdatePassEffect(old(table.entries), src, visits);
      exits := err == NotExist;
    }

    /**
     * One scheduler pass, visiting the keys in order. It returns the entries
     * it emits, as they were when visited.
     */
    method ScanTargets(order: seq<Path>) returns (targets: seq<FileStatus>)
      requires Valid()
      requires IsEnumeration(order, table.entries)
      modifies table
      ensures Valid()
      ensures table.entries == Schedule(old(table.entries), threshold)
      ensures targets == EmittedIn(old(table.entries), order, threshold)
    {
      ghost var before := table.entries;
      targets := [];
      var i := 0;
      while i < |order|
        invariant 0 <= i <= |order|
        invariant table.entries == ScheduledPrefix(before, order[..i], threshold)
        invariant targets == EmittedIn(before, order[..i], threshold)
      {
        var path := order[i];
        assert path !in order[..i] by {
          forall j | 0 <= j < i ensures order[..i][j] != path {
            assert order[..i][j] == order[j];
          }
        }
        PassStep(before, order, threshold, i);
        var emit, fs := SchedulePath(path);
        if emit {
          targets := targets + [fs];
        }
        i := i + 1;
      }
      assert order[..i] == order;
      ScheduledPrefixIsSchedule(before, order, threshold);
    }

    /** The body of the scheduler pass for one key: reads the entry, updates it, says whether to emit it. */
    method SchedulePath(path: Path) returns (emit: bool, fs: FileStatus)
      requires path in table.entries && table.entries[path].path == path
      modifies table
      ensures fs == old(table.entries)[path]
      ensures emit == Eligible(fs, threshold)
      ensures table.entries == old(table.entries)[path := ScheduleEntry(fs, threshold)]
    {
      fs := table.Get(path);
      emit := false;
      if fs.status == Idle {
        if fs.kind == Directory {
          table.SetStatus(path, Transferring);
          emit := true;
        } else {
          var count := table.GetCount(path);
          if count >= threshold {
            table.ResetCount(path);
            table.SetStatus(path, Transferring);
            emit := true;
          } else {
            table.IncrementCount(path);
          }
        }
      }
    }

    /**
     * The worker's reconciliation after copying task.src; copyFailed is the
     * copy's outcome, which is only logged.
     */
    method Transfer(task: Task, copyFailed: bool)
      requires Valid()
      modifies table
      ensures Valid()
      ensures table.entries == Reconciled(old(table.entries), task.src)
    {
      if !table.IsIdle(task.src) {
        table.SetStatus(task.src, Complete);
      }
    }

    /**
     * Startup: the baseline walk, then, unless existing content is ignored, one
     * transfer of the whole source root. Afterwards every observed path is Complete.
     */
    method Startup(walk: seq<Observation>, err: WalkError, copyFailed: bool) returns (exits: bool)
      requires Valid()
      modifies table
      ensures Valid()
      ensures exits <==> err == NotExist
      ensures table.entries ==
                if exits || ignoreExisting then Baseline(old(table.entries), walk)
                else Reconciled(Baseline(old(table.entries), walk), src)
      ensures forall i | 0 <= i < |walk| ::
                walk[i].path in table.entries && table.entries[walk[i].path].status == Complete
    {
      exits := InitExisting(walk, err);
      if exits {
        return;
      }
      if !ignoreExisting {
        Transfer(Task(src, dst), copyFailed);
      }
    }
  }

  /** Every entry of the table is Complete. */
  predicate AllComplete(m: Entries) {
    forall k | k in m :: m[k].status == Complete
  }

  /** A baseline walk into an empty table leaves every entry Complete. */
  lemma BaselineAllComplete(walk: seq<Observation>)
    ensures AllComplete(Baseline(map[], walk))
  {
    var m := Baseline(map[], walk);
    BaselineKeys(map[], walk);
    BaselineComplete(map[], walk);
    forall k | k in m ensures m[k].status == Complete {
      var o :| o in walk && o.path == k;
      var i :| 0 <= i < |walk| && walk[i] == o;
    }
  }

  /** The table after a Startup from an empty table that did not exit. */
  function Started(walk: seq<Observation>, src: Path, ignoreExisting: bool): Entries {
    var b := Baseline(map[], walk);
    if ignoreExisting then b else Reconciled(b, src)
  }

  /** After startup every entry is Complete, and every path holds the size of its last baseline observation. */
  lemma StartedSettled(walk: seq<Observation>, src: Path, ignoreExisting: bool)
    ensures AllComplete(Started(walk, src, ignoreExisting)) && Consistent(Started(walk, src, ignoreExisting))
    ensures forall j | 0 <= j < |walk| && IsLast(walk, j) ::
              walk[j].path in Started(walk, src, ignoreExisting) &&
              Started(walk, src, ignoreExisting)[walk[j].path].size == walk[j].size
  {
    BaselineAllComplete(walk);
    BaselineLast(map[], walk);
    BaselineConsistent(map[], walk);
  }

  /**
   * A fresh start with existing content, followed by a poll cycle that finds
   * the tree as the baseline walk saw it: the incremental walk re-observes only
   * the root and paths with their last baseline observation, so it changes
   * nothing, and the scheduler pass then emits nothing and changes nothing. The
   * table is left as it was, so the same holds for every later such cycle, and
   * the startup transfer of the root is the only one.
   */
  lemma StartupThenQuietCycle(walk: seq<Observation>, src: Path, ignoreExisting: bool,
                              visits: seq<Visit>, order: seq<Path>, threshold: int)
    requires forall i | 0 <= i < |visits| ::
               visits[i].entry.path == src ||
               exists j | 0 <= j < |walk| && IsLast(walk, j) :: visits[i].entry == walk[j]
    requires IsEnumeration(order, Started(walk, src, ignoreExisting))
    ensures UpdatePass(Started(walk, src, ignoreExisting), src, visits) == Started(walk, src, ignoreExisting)
    ensures Schedule(Started(walk, src, ignoreExisting), threshold) == Started(walk, src, ignoreExisting)
    ensures EmittedIn(Started(walk, src, ignoreExisting), order, threshold) == []
  {
    var s := Started(walk, src, ignoreExisting);
    StartedSettled(walk, src, ignoreExisting);
    forall i | 0 <= i < |visits| ensures Quiet(s, src, visits[i]) {
      if visits[i].entry.path != src {
        var j :| 0 <= j < |walk| && IsLast(walk, j) && visits[i].entry == walk[j];
      }
    }
    QuietPass(s, src, visits);
    NothingIdleNothingEmitted(s, order, threshold);
  }
}

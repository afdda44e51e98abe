/**
 * The scheduler: one pass over the table per poll cycle. Only Idle entries
 * are considered. A directory is sent at once; a file is sent once its check
 * count has reached the threshold, and otherwise has its count bumped. This
 * count is the debounce that keeps a growing file from being copied mid-write.
 */
module Scheduler {
  import opened StatusTable

  /** Whether a scheduler pass emits fs: Idle, and a directory or a file whose count reached threshold. */
  predicate Eligible(fs: FileStatus, threshold: int) {
    fs.status == Idle && (fs.kind == Directory || fs.checkCount >= threshold)
  }

  /** What one scheduler pass makes of one entry. */
  function ScheduleEntry(fs: FileStatus, threshold: int): (r: FileStatus)
    ensures r.path == fs.path && r.kind == fs.kind && r.size == fs.size
    ensures fs.status != Idle ==> r == fs
    ensures Eligible(fs, threshold) ==> r.status == Transferring
    ensures Eligible(fs, threshold) && fs.kind == Directory ==> r.checkCount == fs.checkCount
    ensures Eligible(fs, threshold) && fs.kind != Directory ==> r.checkCount == 0
    ensures fs.status == Idle && !Eligible(fs, threshold) ==>
              r.status == Idle && r.checkCount == fs.checkCount + 1
  {
    if fs.status != Idle then fs
    else if fs.kind == Directory then fs.(status := Transferring)
    else if fs.checkCount >= threshold then fs.(checkCount := 0, status := Transferring)
    else fs.(checkCount := fs.checkCount + 1)
  }

  /**
   * The table after a scheduler pass. Each entry is handled on its own, so the
   * result does not depend on the order the pass visits the keys in. The only
   * status edge a pass takes is Idle to Transferring.
   */
  function Schedule(m: Entries, threshold: int): (r: Entries)
    ensures r.Keys == m.Keys
    ensures forall k | k in m :: r[k] == ScheduleEntry(m[k], threshold)
    ensures forall k | k in m && r[k].status != m[k].status ::
              m[k].status == Idle && r[k].status == Transferring
    ensures forall k | k in m && m[k].status != Idle :: r[k] == m[k]
    ensures Consistent(m) ==> Consistent(r)
  {
    map k | k in m :: ScheduleEntry(m[k], threshold)
  }

  /** The table after a pass has visited the keys of order, each read as it currently is. */
  function ScheduledPrefix(m: Entries, order: seq<Path>, threshold: int): (r: Entries)
    requires forall i | 0 <= i < |order| :: order[i] in m
    ensures r.Keys == m.Keys
    decreases |order|
  {
    if order == [] then m
    else
      var acc, k := ScheduledPrefix(m, order[..|order| - 1], threshold), order[|order| - 1];
      acc[k := ScheduleEntry(acc[k], threshold)]
  }

  /** Visiting distinct keys one at a time handles each visited entry once and leaves the rest alone. */
  lemma {:induction false} ScheduledPrefixAt(m: Entries, order: seq<Path>, threshold: int)
    requires forall i | 0 <= i < |order| :: order[i] in m
    requires forall i, j | 0 <= i < j < |order| :: order[i] != order[j]
    ensures forall k | k in m ::
              ScheduledPrefix(m, order, threshold)[k] == if k in order then ScheduleEntry(m[k], threshold) else m[k]
    decreases |order|
  {
    if order != [] {
      var ks, p := order[..|order| - 1], order[|order| - 1];
      ScheduledPrefixAt(m, ks, threshold);
      assert p !in ks by {
        forall j | 0 <= j < |ks| ensures ks[j] != p {
          assert ks[j] == order[j];
        }
      }
      assert order == ks + [p];
    }
  }

  /** A key the pass has not visited yet still holds its entry from before the pass. */
  lemma {:induction false} ScheduledPrefixUnvisited(m: Entries, order: seq<Path>, threshold: int, k: Path)
    requires forall i | 0 <= i < |order| :: order[i] in m
    requires k in m && k !in order
    ensures ScheduledPrefix(m, order, threshold)[k] == m[k]
    decreases |order|
  {
    if order != [] {
      ScheduledPrefixUnvisited(m, order[..|order| - 1], threshold, k);
    }
  }

  /** How a pass over order[..i + 1] extends the one over order[..i]. */
  lemma PassStep(m: Entries, order: seq<Path>, threshold: int, i: int)
    requires forall j | 0 <= j < |order| :: order[j] in m
    requires 0 <= i < |order| && order[i] !in order[..i]
    ensures ScheduledPrefix(m, order[..i], threshold)[order[i]] == m[order[i]]
    ensures ScheduledPrefix(m, order[..i + 1], threshold) ==
              ScheduledPrefix(m, order[..i], threshold)[order[i] := ScheduleEntry(m[order[i]], threshold)]
    ensures EmittedIn(m, order[..i + 1], threshold) ==
              EmittedIn(m, order[..i], threshold) +
              (if Eligible(m[order[i]], threshold) then [m[order[i]]] else [])
  {
    assert order[..i + 1][..i] == order[..i] && order[..i + 1][i] == order[i];
    ScheduledPrefixUnvisited(m, order[..i], threshold, order[i]);
  }

  /** A pass that visits every key once, in any order, yields Schedule. */
  lemma ScheduledPrefixIsSchedule(m: Entries, order: seq<Path>, threshold: int)
    requires IsEnumeration(order, m)
    ensures ScheduledPrefix(m, order, threshold) == Schedule(m, threshold)
  {
    ScheduledPrefixAt(m, order, threshold);
  }

  /** order lists every key of m exactly once, as ranging over a Go map does. */
  predicate IsEnumeration(order: seq<Path>, m: Entries) {
    && (forall i, j | 0 <= i < j < |order| :: order[i] != order[j])
    && (forall i | 0 <= i < |order| :: order[i] in m)
    && (forall k | k in m :: k in order)
  }

  /** The entries a pass visiting the keys in order emits, as they were before the pass. */
  function EmittedIn(m: Entries, order: seq<Path>, threshold: int): (r: seq<FileStatus>)
    requires forall i | 0 <= i < |order| :: order[i] in m
    ensures |r| <= |order|
    ensures forall x | x in r :: Eligible(x, threshold)
    ensures WellKeyed(m) ==> forall x | x in r :: x.path in order && x.path in m && m[x.path] == x
    decreases |order|
  {
    if order == [] then []
    else
      var k := order[|order| - 1];
      EmittedIn(m, order[..|order| - 1], threshold) + (if Eligible(m[k], threshold) then [m[k]] else [])
  }

  /** An eligible entry visited by the pass is emitted. */
  lemma {:induction false} EligibleIsEmitted(m: Entries, order: seq<Path>, threshold: int, j: int)
    requires forall i | 0 <= i < |order| :: order[i] in m
    requires 0 <= j < |order| && Eligible(m[order[j]], threshold)
    ensures m[order[j]] in EmittedIn(m, order, threshold)
    decreases |order|
  {
    if j < |order| - 1 {
      EligibleIsEmitted(m, order[..|order| - 1], threshold, j);
      assert order[..|order| - 1][j] == order[j];
    }
  }

  /** A full pass emits exactly the eligible entries of the table. */
  lemma EmittedExactlyEligible(m: Entries, order: seq<Path>, threshold: int)
    requires WellKeyed(m) && IsEnumeration(order, m)
    ensures forall k | k in m :: m[k] in EmittedIn(m, order, threshold) <==> Eligible(m[k], threshold)
  {
    forall k | k in m && Eligible(m[k], threshold)
      ensures m[k] in EmittedIn(m, order, threshold)
    {
      var j :| 0 <= j < |order| && order[j] == k;
      EligibleIsEmitted(m, order, threshold, j);
    }
  }

  /** A pass over distinct keys emits each entry at most once. */
  lemma {:induction false} EmittedOnce(m: Entries, order: seq<Path>, threshold: int)
    requires WellKeyed(m)
    requires forall i | 0 <= i < |order| :: order[i] in m
    requires forall i, j | 0 <= i < j < |order| :: order[i] != order[j]
    ensures forall a, b | 0 <= a < b < |EmittedIn(m, order, threshold)| ::
              EmittedIn(m, order, threshold)[a].path != EmittedIn(m, order, threshold)[b].path
    decreases |order|
  {
    if order != [] {
      var ks, k := order[..|order| - 1], order[|order| - 1];
      EmittedOnce(m, ks, threshold);
      var prev := EmittedIn(m, ks, threshold);
      var r := EmittedIn(m, order, threshold);
      assert r == prev + (if Eligible(m[k], threshold) then [m[k]] else []);
      forall x | x in prev ensures x.path != k {
        assert x.path in ks;
      }
      forall a, b | 0 <= a < b < |r| ensures r[a].path != r[b].path {
        assert r[a] == prev[a] && prev[a] in prev;
        if b < |prev| {
          assert r[b] == prev[b];
          assert prev[a].path != prev[b].path;
        } else {
          assert r[b] == m[k] && m[k].path == k;
          assert prev[a].path != k;
        }
      }
    }
  }

  /** A pass emits nothing from a table with no Idle entry. */
  lemma NothingIdleNothingEmitted(m: Entries, order: seq<Path>, threshold: int)
    requires WellKeyed(m)
    requires forall i | 0 <= i < |order| :: order[i] in m
    requires forall k | k in m :: m[k].status != Idle
    ensures EmittedIn(m, order, threshold) == []
  {
  }

  /** The entry after n scheduler passes during which nothing else touches it. */
  function Repeated(fs: FileStatus, threshold: int, n: nat): FileStatus
    decreases n
  {
    if n == 0 then fs else ScheduleEntry(Repeated(fs, threshold, n - 1), threshold)
  }

  /** While below the threshold, each pass adds one to an Idle file's count and nothing else. */
  lemma {:induction false} CountsUp(fs: FileStatus, threshold: int, n: nat)
    requires fs.status == Idle && fs.kind != Directory
    requires fs.checkCount + n <= threshold
    ensures Repeated(fs, threshold, n) == fs.(checkCount := fs.checkCount + n)
    decreases n
  {
    if n > 0 {
      CountsUp(fs, threshold, n - 1);
    }
  }

  /**
   * Debounce: an Idle file that starts at count c is left alone by the first
   * max(threshold - c, 0) passes, and the pass after those emits it, resets its
   * count and marks it Transferring.
   */
  lemma DebounceFrom(fs: FileStatus, threshold: int)
    requires fs.status == Idle && fs.kind != Directory
    ensures var w := if fs.checkCount >= threshold then 0 else threshold - fs.checkCount;
      && (forall n: nat | n < w :: !Eligible(Repeated(fs, threshold, n), threshold))
      && Eligible(Repeated(fs, threshold, w), threshold)
      && Repeated(fs, threshold, w + 1) == fs.(status := Transferring, checkCount := 0)
  {
    var w := if fs.checkCount >= threshold then 0 else threshold - fs.checkCount;
    forall n: nat | n < w
      ensures !Eligible(Repeated(fs, threshold, n), threshold)
    {
      CountsUp(fs, threshold, n);
    }
    if w > 0 {
      CountsUp(fs, threshold, w);
    }
  }

  /**
   * A file that enters Idle with count 0 is emitted on pass threshold + 1 and on
   * no earlier pass; with threshold 0 (or less) on the first pass.
   */
  lemma Debounce(fs: FileStatus, threshold: int)
    requires fs.status == Idle && fs.kind != Directory && fs.checkCount == 0
    ensures var w := if threshold < 0 then 0 else threshold;
      && (forall n: nat | 1 <= n <= w :: Repeated(fs, threshold, n).status == Idle)
      && (forall n: nat | n < w :: !Eligible(Repeated(fs, threshold, n), threshold))
      && Eligible(Repeated(fs, threshold, w), threshold)
      && Repeated(fs, threshold, w + 1) == fs.(status := Transferring)
  {
    DebounceFrom(fs, threshold);
    var w := if threshold < 0 then 0 else threshold;
    forall n: nat | 1 <= n <= w
      ensures Repeated(fs, threshold, n).status == Idle
    {
      CountsUp(fs, threshold, n);
    }
  }

  /** A new directory makes one transfer: the pass emits its root and none of its descendants. */
  lemma NewDirectoryIsOneTransfer(m: Entries, root: Path, walk: seq<Observation>, threshold: int)
    ensures var r := NewDirectory(m, root, walk);
      && root in r && Eligible(r[root], threshold)
      && (forall i | 0 <= i < |walk| && walk[i].path != root ::
            walk[i].path in r && !Eligible(r[walk[i].path], threshold))
  {
    NewDirectoryRegisters(m, root, walk);
  }
}

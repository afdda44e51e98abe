/**
 * The scanner: the two walks of the source tree that feed the state table.
 * The baseline walk at startup registers everything it sees as already
 * Complete; the incremental walk of each poll cycle registers new paths and
 * sends files whose size changed back to Idle with a fresh count.
 */
module Scanner {
  import opened StatusTable

  /** How a walk ended. NotExist is an os.IsNotExist error, which ends the process. */
  datatype WalkError = NoError | NotExist | OtherError

  /** One step of the incremental walk: what it observed, and, in case that is a
   *  directory not yet known, what AddNewDirectory's own walk of it delivers. */
  datatype Visit = Visit(entry: Observation, subtree: seq<Observation>)

  /** The paths a walk observed. */
  function ObservedPaths(walk: seq<Observation>): set<Path> {
    set o | o in walk :: o.path
  }

  /** The table after the baseline walk has handled walk: Add, then SetStatus(Complete), per path. */
  function Baseline(m: Entries, walk: seq<Observation>): Entries
    decreases |walk|
  {
    if walk == [] then m
    else
      var o := walk[|walk| - 1];
      Registered(Baseline(m, walk[..|walk| - 1]), o.path, KindOf(o), o.size)
  }

  /** How the baseline over walk[..i + 1] extends the one over walk[..i]. */
  lemma BaselineStep(m: Entries, walk: seq<Observation>, i: int)
    requires 0 <= i < |walk|
    ensures Baseline(m, walk[..i + 1]) == Registered(Baseline(m, walk[..i]), walk[i].path, KindOf(walk[i]), walk[i].size)
  {
    assert walk[..i + 1][..i] == walk[..i];
  }

  /** The baseline walk adds exactly the observed paths and leaves every other entry alone. */
  lemma {:induction false} BaselineKeys(m: Entries, walk: seq<Observation>)
    ensures Baseline(m, walk).Keys == m.Keys + ObservedPaths(walk)
    ensures forall k | k in m && k !in ObservedPaths(walk) :: Baseline(m, walk)[k] == m[k]
    decreases |walk|
  {
    if walk != [] {
      var w, o := walk[..|walk| - 1], walk[|walk| - 1];
      BaselineKeys(m, w);
      assert Baseline(m, walk) == Registered(Baseline(m, w), o.path, KindOf(o), o.size);
      ObservedPathsSnoc(walk);
    }
  }

  /** Extending a walk by one observation adds exactly that observation's path. */
  lemma ObservedPathsSnoc(walk: seq<Observation>)
    requires walk != []
    ensures ObservedPaths(walk) == ObservedPaths(walk[..|walk| - 1]) + {walk[|walk| - 1].path}
  {
    var w, o := walk[..|walk| - 1], walk[|walk| - 1];
    assert walk == w + [o];
    forall x | x in walk ensures x in w || x == o { }
    forall x | x in w ensures x in walk { }
  }

  /** After the baseline walk every observed path, the root included, is Complete. */
  lemma {:induction false} BaselineComplete(m: Entries, walk: seq<Observation>)
    ensures CompleteOn(Baseline(m, walk), walk)
    decreases |walk|
  {
    if walk != [] {
      var w, o := walk[..|walk| - 1], walk[|walk| - 1];
      BaselineComplete(m, w);
      var prev, r := Baseline(m, w), Baseline(m, walk);
      assert r == Registered(prev, o.path, KindOf(o), o.size);
      CompleteOnExtends(prev, r, walk);
    }
  }

  /** Every path of walk holds the entry its last observation registers: Complete, its kind, its walked size, count 0. */
  predicate LastRegistered(m: Entries, walk: seq<Observation>) {
    forall i | 0 <= i < |walk| && IsLast(walk, i) ::
      walk[i].path in m && m[walk[i].path] == FileStatus(walk[i].path, Complete, KindOf(walk[i]), walk[i].size, 0)
  }

  /** Registering the last observation, and changing nothing else, extends LastRegistered to the whole walk. */
  lemma LastRegisteredExtends(m: Entries, r: Entries, walk: seq<Observation>)
    requires walk != [] && LastRegistered(m, walk[..|walk| - 1])
    requires var o := walk[|walk| - 1];
      OnlyKeyChanged(m, r, o.path) && o.path in r && r[o.path] == FileStatus(o.path, Complete, KindOf(o), o.size, 0)
    ensures LastRegistered(r, walk)
  {
    var w, o := walk[..|walk| - 1], walk[|walk| - 1];
    forall i | 0 <= i < |walk| - 1 && IsLast(walk, i)
      ensures IsLast(w, i) && w[i] == walk[i] && walk[i].path != o.path
    {
      assert walk[|walk| - 1] == o;
    }
  }

  /** A path's baseline entry is built from its last observation: its kind, its walked size, count 0. */
  lemma {:induction false} BaselineLast(m: Entries, walk: seq<Observation>)
    ensures LastRegistered(Baseline(m, walk), walk)
    decreases |walk|
  {
    if walk != [] {
      var w, o := walk[..|walk| - 1], walk[|walk| - 1];
      BaselineLast(m, w);
      var prev, r := Baseline(m, w), Baseline(m, walk);
      assert r == Registered(prev, o.path, KindOf(o), o.size);
      LastRegisteredExtends(prev, r, walk);
    }
  }

  /** The baseline walk keeps the table consistent. */
  lemma {:induction false} BaselineConsistent(m: Entries, walk: seq<Observation>)
    ensures Consistent(m) ==> Consistent(Baseline(m, walk))
    decreases |walk|
  {
    if walk != [] {
      BaselineConsistent(m, walk[..|walk| - 1]);
    }
  }

  /** The table after the incremental walk's callback has handled one visit. */
  function UpdateStep(m: Entries, src: Path, v: Visit): Entries {
    var o := v.entry;
    if o.path == src then m
    else if o.isDir then
      if o.path in m then m else NewDirectory(m, o.path, v.subtree)
    else if o.path !in m then Added(m, o.path, File, o.size)
    else if EntryAt(m, o.path).size != o.size then
      WithCount(WithStatus(WithSize(m, o.path, o.size), o.path, Idle), o.path, 0)
    else m
  }

  /** The table after the incremental walk has handled visits. */
  function UpdatePass(m: Entries, src: Path, visits: seq<Visit>): Entries
    decreases |visits|
  {
    if visits == [] then m
    else UpdateStep(UpdatePass(m, src, visits[..|visits| - 1]), src, visits[|visits| - 1])
  }

  /**
   * What one visit of the incremental walk does: the root is skipped; known
   * directories and known files of unchanged size are left alone; a known file
   * of a new size takes that size, Idle and count 0 whatever it was before; a
   * new file is registered Idle; a new directory is registered Idle with its
   * descendants Complete. Nothing is removed, and nothing is marked Transferring.
   */
  lemma UpdateStepEffect(m: Entries, src: Path, v: Visit)
    ensures var r, p := UpdateStep(m, src, v), v.entry.path;
      && (p == src ==> r == m)
      && (p != src && v.entry.isDir && p in m ==> r == m)
      && (p != src && v.entry.isDir && p !in m ==>
            && p in r && r[p] == FileStatus(p, Idle, Directory, DirectorySize, 0)
            && (forall i | 0 <= i < |v.subtree| && v.subtree[i].path != p ::
                  v.subtree[i].path in r && r[v.subtree[i].path].status == Complete))
      && (p != src && !v.entry.isDir && p !in m ==>
            OnlyKeyChanged(m, r, p) && r[p] == FileStatus(p, Idle, File, v.entry.size, 0))
      && (p != src && !v.entry.isDir && p in m && m[p].size == v.entry.size ==> r == m)
      && (p != src && !v.entry.isDir && p in m && m[p].size != v.entry.size ==>
            OnlyKeyChanged(m, r, p) && r[p] == FileStatus(p, Idle, m[p].kind, v.entry.size, 0))
      && m.Keys <= r.Keys
      && (p != src ==> p in r)
      && (forall k | k in r && (k !in m || r[k] != m[k]) :: r[k].status == Idle || r[k].status == Complete)
      && (Consistent(m) ==> Consistent(r))
  {
    var o := v.entry;
    if o.path != src && o.isDir && o.path !in m {
      NewDirectoryStep(m, o.path, v.subtree);
    }
  }

  /** The new-directory case of the incremental walk: nothing is removed, and what changes is Idle or Complete. */
  lemma NewDirectoryStep(m: Entries, root: Path, walk: seq<Observation>)
    ensures var r := NewDirectory(m, root, walk);
      && root in r && r[root] == FileStatus(root, Idle, Directory, DirectorySize, 0)
      && (forall i | 0 <= i < |walk| && walk[i].path != root ::
            walk[i].path in r && r[walk[i].path].status == Complete)
      && m.Keys <= r.Keys
      && (forall k | k in r && (k !in m || r[k] != m[k]) :: r[k].status == Idle || r[k].status == Complete)
      && (Consistent(m) ==> Consistent(r))
  {
    NewDirectoryRegisters(m, root, walk);
    var r := NewDirectory(m, root, walk);
    forall k | k in r && (k !in m || r[k] != m[k])
      ensures r[k].status == Idle || r[k].status == Complete
    {
      if k != root {
        var i :| 0 <= i < |walk| && walk[i].path == k && walk[i].path != root;
      }
    }
  }

  /** A visit the incremental walk ignores: the root, a known directory, or a known file of its recorded size. */
  predicate Quiet(m: Entries, src: Path, v: Visit) {
    v.entry.path == src || (v.entry.path in m && (v.entry.isDir || m[v.entry.path].size == v.entry.size))
  }

  /** A visit leaves the table exactly as it was if and only if it is quiet. */
  lemma QuietStep(m: Entries, src: Path, v: Visit)
    ensures UpdateStep(m, src, v) == m <==> Quiet(m, src, v)
  {
    UpdateStepEffect(m, src, v);
    var r, p := UpdateStep(m, src, v), v.entry.path;
    if !Quiet(m, src, v) {
      if p !in m {
        assert p in r;
      } else {
        assert r[p].size != m[p].size;
      }
    }
  }

  /** An incremental walk of quiet visits only leaves the table as it was. */
  lemma {:induction false} QuietPass(m: Entries, src: Path, visits: seq<Visit>)
    requires forall i | 0 <= i < |visits| :: Quiet(m, src, visits[i])
    ensures UpdatePass(m, src, visits) == m
    decreases |visits|
  {
    if visits != [] {
      var vs := visits[..|visits| - 1];
      forall i | 0 <= i < |vs| ensures Quiet(m, src, vs[i]) {
        assert vs[i] == visits[i];
      }
      QuietPass(m, src, vs);
      QuietStep(m, src, visits[|visits| - 1]);
    }
  }

  /**
   * Over a whole incremental walk: no entry is removed, every path observed
   * below the root ends in the table, every entry the walk changed or created
   * is Idle or Complete (the scanner never marks Transferring), and the table
   * stays consistent.
   */
  lemma {:induction false} UpdatePassEffect(m: Entries, src: Path, visits: seq<Visit>)
    ensures var r := UpdatePass(m, src, visits);
      && m.Keys <= r.Keys
      && (forall i | 0 <= i < |visits| && visits[i].entry.path != src :: visits[i].entry.path in r)
      && (forall k | k in r && (k !in m || r[k] != m[k]) :: r[k].status == Idle || r[k].status == Complete)
      && (Consistent(m) ==> Consistent(r))
    decreases |visits|
  {
    if visits != [] {
      var vs, v := visits[..|visits| - 1], visits[|visits| - 1];
      UpdatePassEffect(m, src, vs);
      var prev := UpdatePass(m, src, vs);
      UpdateStepEffect(prev, src, v);
      var r := UpdatePass(m, src, visits);
      forall i | 0 <= i < |visits| && visits[i].entry.path != src
        ensures visits[i].entry.path in r
      {
        if i < |vs| {
          assert visits[i] == vs[i];
        }
      }
      forall k | k in r && (k !in m || r[k] != m[k])
        ensures r[k].status == Idle || r[k].status == Complete
      {
        if k in prev && r[k] == prev[k] {
          assert k !in m || prev[k] != m[k];
        }
      }
    }
  }
}

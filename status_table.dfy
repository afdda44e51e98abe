/**
 * The per-path state table of the sync daemon: one FileStatus per walked
 * path, the accessor methods of FileStatusTable, and the map-level functions
 * that say what each of those methods leaves behind.
 *
 * Go reads a missing map key as the zero value of FileStatus, and the setters
 * rebuild an entry from what they read, so a setter applied to an unknown path
 * creates an entry out of the zero value. The model keeps that behaviour:
 * NoStatus and NoKind stand for the empty strings Go's zero value holds.
 */
module StatusTable {

  /** A path as delivered by the directory walk; the table's key. */
  type Path = string

  /** FileTransferStatus. NoStatus is the zero value "", never set by the daemon itself. */
  datatype Status = NoStatus | Idle | Transferring | Complete

  /** FileType. NoKind is the zero value "". */
  datatype Kind = NoKind | File | Directory

  /** One row of the table. */
  datatype FileStatus = FileStatus(path: Path, status: Status, kind: Kind, size: int, checkCount: int)

  type Entries = map<Path, FileStatus>

  /** The nominal size recorded for directories found after startup. */
  const DirectorySize: int := 4096

  /** What a lookup of an absent key yields. */
  const ZeroStatus: FileStatus := FileStatus("", NoStatus, NoKind, 0, 0)

  /** One entry delivered by a directory walk: its path, whether it is a directory, its size. */
  datatype Observation = Observation(path: Path, isDir: bool, size: int)

  /** The kind an observation is registered with: anything that is not a directory is a file. */
  function KindOf(o: Observation): (k: Kind)
    ensures k != NoKind
    ensures k == Directory <==> o.isDir
  {
    if o.isDir then Directory else File
  }

  /** Every entry carries its own key in its path field. */
  predicate WellKeyed(m: Entries) {
    forall k | k in m :: m[k].path == k
  }

  /** The table invariant the daemon keeps: well keyed, and every status one of the three real ones. */
  predicate Consistent(m: Entries) {
    forall k | k in m :: m[k].path == k && m[k].status != NoStatus
  }

  /** r differs from m at most at key path, which r holds. */
  predicate OnlyKeyChanged(m: Entries, r: Entries, path: Path) {
    && r.Keys == m.Keys + {path}
    && forall k | k in m && k != path :: k in r && r[k] == m[k]
  }

  /** Go's `(*t)[path]`: the entry, or the zero value for an absent key. */
  function EntryAt(m: Entries, path: Path): FileStatus {
    if path in m then m[path] else ZeroStatus
  }

  /** The table after Add(path, kind, size). */
  function Added(m: Entries, path: Path, kind: Kind, size: int): (r: Entries)
    ensures OnlyKeyChanged(m, r, path)
    ensures path in r && r[path] == FileStatus(path, Idle, kind, size, 0)
    ensures WellKeyed(m) ==> WellKeyed(r)
    ensures Consistent(m) ==> Consistent(r)
  {
    m[path := FileStatus(path, Idle, kind, size, 0)]
  }

  /** The table after SetStatus(path, status): only that field of that entry changes. */
  function WithStatus(m: Entries, path: Path, status: Status): (r: Entries)
    ensures OnlyKeyChanged(m, r, path)
    ensures path in r && r[path].path == path && r[path].status == status
    ensures r[path].kind == EntryAt(m, path).kind && r[path].size == EntryAt(m, path).size
    ensures r[path].checkCount == EntryAt(m, path).checkCount
    ensures WellKeyed(m) ==> WellKeyed(r)
    ensures Consistent(m) && status != NoStatus ==> Consistent(r)
  {
    var e := EntryAt(m, path);
    m[path := FileStatus(path, status, e.kind, e.size, e.checkCount)]
  }

  /** The table after SetCount(path, checkCount): only that field of that entry changes. */
  function WithCount(m: Entries, path: Path, checkCount: int): (r: Entries)
    ensures OnlyKeyChanged(m, r, path)
    ensures path in r && r[path].path == path && r[path].checkCount == checkCount
    ensures r[path].status == EntryAt(m, path).status && r[path].kind == EntryAt(m, path).kind
    ensures r[path].size == EntryAt(m, path).size
    ensures WellKeyed(m) ==> WellKeyed(r)
    ensures Consistent(m) && path in m ==> Consistent(r)
  {
    var e := EntryAt(m, path);
    m[path := FileStatus(path, e.status, e.kind, e.size, checkCount)]
  }

  /** The table after IncrementCount(path): the count goes up by one, nothing else changes. */
  function Incremented(m: Entries, path: Path): (r: Entries)
    ensures OnlyKeyChanged(m, r, path)
    ensures path in r && r[path].path == path && r[path].checkCount == EntryAt(m, path).checkCount + 1
    ensures r[path].status == EntryAt(m, path).status && r[path].kind == EntryAt(m, path).kind
    ensures r[path].size == EntryAt(m, path).size
    ensures WellKeyed(m) ==> WellKeyed(r)
    ensures Consistent(m) && path in m ==> Consistent(r)
  {
    var e := EntryAt(m, path);
    m[path := FileStatus(path, e.status, e.kind, e.size, e.checkCount + 1)]
  }

  /** The table after SetSize(path, size): only that field of that entry changes. */
  function WithSize(m: Entries, path: Path, size: int): (r: Entries)
    ensures OnlyKeyChanged(m, r, path)
    ensures path in r && r[path].path == path && r[path].size == size
    ensures r[path].status == EntryAt(m, path).status && r[path].kind == EntryAt(m, path).kind
    ensures r[path].checkCount == EntryAt(m, path).checkCount
    ensures WellKeyed(m) ==> WellKeyed(r)
    ensures Consistent(m) && path in m ==> Consistent(r)
  {
    var e := EntryAt(m, path);
    m[path := FileStatus(path, e.status, e.kind, size, e.checkCount)]
  }

  /** The table after Remove(path): that key is gone, every other entry is kept. */
  function Removed(m: Entries, path: Path): (r: Entries)
    ensures r.Keys == m.Keys - {path}
    ensures forall k | k in r :: k in m && r[k] == m[k]
    ensures WellKeyed(m) ==> WellKeyed(r)
    ensures Consistent(m) ==> Consistent(r)
  {
    if path !in m then m else m - {path}
  }

  /** Add(path, kind, size) followed by SetStatus(path, Complete), as both registering walks do. */
  function Registered(m: Entries, path: Path, kind: Kind, size: int): (r: Entries)
    ensures OnlyKeyChanged(m, r, path)
    ensures path in r && r[path] == FileStatus(path, Complete, kind, size, 0)
    ensures WellKeyed(m) ==> WellKeyed(r)
    ensures Consistent(m) ==> Consistent(r)
  {
    WithStatus(Added(m, path, kind, size), path, Complete)
  }

  /** Every path the walk observed is in the table and Complete. */
  predicate CompleteOn(m: Entries, walk: seq<Observation>) {
    forall i | 0 <= i < |walk| :: walk[i].path in m && m[walk[i].path].status == Complete
  }

  /** Making the last observed path Complete, and changing nothing else, extends CompleteOn to the whole walk. */
  lemma CompleteOnExtends(m: Entries, r: Entries, walk: seq<Observation>)
    requires walk != [] && CompleteOn(m, walk[..|walk| - 1])
    requires var p := walk[|walk| - 1].path; OnlyKeyChanged(m, r, p) && p in r && r[p].status == Complete
    ensures CompleteOn(r, walk)
  {
    forall i | 0 <= i < |walk|
      ensures walk[i].path in r && r[walk[i].path].status == Complete
    {
      if i < |walk| - 1 {
        assert walk[i] == walk[..|walk| - 1][i];
      }
    }
  }

  /** No later observation of the walk has the same path as walk[i]. */
  predicate IsLast(walk: seq<Observation>, i: int)
    requires 0 <= i < |walk|
  {
    forall j | i < j < |walk| :: walk[j].path != walk[i].path
  }

  /** The size a descendant of a new directory is registered with. */
  function DescendantSize(o: Observation): int {
    if o.isDir then DirectorySize else o.size
  }

  /** The paths a walk under root registers: all it observes except root itself. */
  function DescendantPaths(root: Path, walk: seq<Observation>): set<Path> {
    set o | o in walk && o.path != root :: o.path
  }

  /** The table after the descendant part of AddNewDirectory has handled walk. */
  function Descendants(m: Entries, root: Path, walk: seq<Observation>): Entries
    decreases |walk|
  {
    if walk == [] then m
    else
      var acc, o := Descendants(m, root, walk[..|walk| - 1]), walk[|walk| - 1];
      if o.path == root then acc else Registered(acc, o.path, KindOf(o), DescendantSize(o))
  }

  /** The table after AddNewDirectory(root) whose walk of root delivered walk. */
  function NewDirectory(m: Entries, root: Path, walk: seq<Observation>): Entries {
    Descendants(Added(m, root, Directory, DirectorySize), root, walk)
  }

  /** The descendant walk adds exactly the descendant paths and leaves every other entry alone. */
  lemma {:induction false} DescendantsKeys(m: Entries, root: Path, walk: seq<Observation>)
    ensures Descendants(m, root, walk).Keys == m.Keys + DescendantPaths(root, walk)
    ensures forall k | k in m && k !in DescendantPaths(root, walk) :: Descendants(m, root, walk)[k] == m[k]
    decreases |walk|
  {
    if walk != [] {
      var w, o := walk[..|walk| - 1], walk[|walk| - 1];
      DescendantsKeys(m, root, w);
      assert Descendants(m, root, walk) ==
             if o.path == root then Descendants(m, root, w)
             else Registered(Descendants(m, root, w), o.path, KindOf(o), DescendantSize(o));
      DescendantPathsSnoc(root, walk);
    }
  }

  /** Extending a walk by one observation adds at most that observation's path. */
  lemma DescendantPathsSnoc(root: Path, walk: seq<Observation>)
    requires walk != []
    ensures var w, o := walk[..|walk| - 1], walk[|walk| - 1];
      DescendantPaths(root, walk) == DescendantPaths(root, w) + (if o.path == root then {} else {o.path})
  {
    var w, o := walk[..|walk| - 1], walk[|walk| - 1];
    assert walk == w + [o];
    forall x | x in walk ensures x in w || x == o { }
    forall x | x in w ensures x in walk { }
  }

  /** Every descendant the walk observes ends Complete. */
  lemma {:induction false} DescendantsComplete(m: Entries, root: Path, walk: seq<Observation>)
    ensures forall i | 0 <= i < |walk| && walk[i].path != root ::
              walk[i].path in Descendants(m, root, walk) && Descendants(m, root, walk)[walk[i].path].status == Complete
    decreases |walk|
  {
    if walk != [] {
      var w, o := walk[..|walk| - 1], walk[|walk| - 1];
      DescendantsComplete(m, root, w);
      var prev, r := Descendants(m, root, w), Descendants(m, root, walk);
      forall i | 0 <= i < |walk| && walk[i].path != root
        ensures walk[i].path in r && r[walk[i].path].status == Complete
      {
        if i < |w| {
          var p := w[i].path;
          assert walk[i] == w[i];
          assert p in prev && prev[p].status == Complete;
          if o.path != root && o.path != p {
            assert OnlyKeyChanged(prev, r, o.path);
          }
        }
      }
    }
  }

  /** A descendant's entry is built from its last observation in the walk. */
  lemma {:induction false} DescendantsLast(m: Entries, root: Path, walk: seq<Observation>)
    ensures forall i | 0 <= i < |walk| && walk[i].path != root && IsLast(walk, i) ::
              walk[i].path in Descendants(m, root, walk) &&
              Descendants(m, root, walk)[walk[i].path] ==
                FileStatus(walk[i].path, Complete, KindOf(walk[i]), DescendantSize(walk[i]), 0)
    decreases |walk|
  {
    if walk != [] {
      var w, o := walk[..|walk| - 1], walk[|walk| - 1];
      DescendantsLast(m, root, w);
      forall i | 0 <= i < |w| && walk[i].path != root && IsLast(walk, i)
        ensures IsLast(w, i) && w[i] == walk[i] && walk[i].path != o.path
      {
        assert walk[|walk| - 1] == o;
      }
    }
  }

  /** The descendant walk keeps the table well keyed and consistent. */
  lemma {:induction false} DescendantsConsistent(m: Entries, root: Path, walk: seq<Observation>)
    ensures WellKeyed(m) ==> WellKeyed(Descendants(m, root, walk))
    ensures Consistent(m) ==> Consistent(Descendants(m, root, walk))
    decreases |walk|
  {
    if walk != [] {
      DescendantsConsistent(m, root, walk[..|walk| - 1]);
    }
  }

  /** AddNewDirectory leaves root an Idle directory of the nominal size and every descendant Complete. */
  lemma NewDirectoryRegisters(m: Entries, root: Path, walk: seq<Observation>)
    ensures var r := NewDirectory(m, root, walk);
      && r.Keys == m.Keys + {root} + DescendantPaths(root, walk)
      && r[root] == FileStatus(root, Idle, Directory, DirectorySize, 0)
      && (forall k | k in m && k != root && k !in DescendantPaths(root, walk) :: r[k] == m[k])
      && (forall i | 0 <= i < |walk| && walk[i].path != root ::
            walk[i].path in r && r[walk[i].path].status == Complete)
      && (forall i | 0 <= i < |walk| && walk[i].path != root && IsLast(walk, i) ::
            r[walk[i].path] == FileStatus(walk[i].path, Complete, KindOf(walk[i]), DescendantSize(walk[i]), 0))
      && (WellKeyed(m) ==> WellKeyed(r))
      && (Consistent(m) ==> Consistent(r))
  {
    var m' := Added(m, root, Directory, DirectorySize);
    DescendantsKeys(m', root, walk);
    DescendantsComplete(m', root, walk);
    DescendantsLast(m', root, walk);
    DescendantsConsistent(m', root, walk);
  }

  /**
   * FileStatusTable: the map the daemon mutates in place. Every method
   * overwrites one entry (or, for AddNewDirectory, a subtree of them).
   */
  class FileStatusTable {
    var entries: Entries

    constructor ()
      ensures entries == map[]
    {
      entries := map[];
    }

    method Add(path: Path, kind: Kind, size: int)
      modifies this
      ensures entries == Added(old(entries), path, kind, size)
    {
      entries := entries[path := FileStatus(path, Idle, kind, size, 0)];
    }

    method AddNewFile(path: Path, size: int)
      modifies this
      ensures entries == Added(old(entries), path, File, size)
    {
      Add(path, File, size);
    }

    /** walk is what the walk of root delivered (root first, as the walk yields it). */
    method AddNewDirectory(root: Path, walk: seq<Observation>)
      modifies this
      ensures entries == NewDirectory(old(entries), root, walk)
      ensures root in entries && entries[root] == FileStatus(root, Idle, Directory, DirectorySize, 0)
      ensures forall i | 0 <= i < |walk| && walk[i].path != root ::
                walk[i].path in entries && entries[walk[i].path].status == Complete
    {
      Add(root, Directory, DirectorySize);
      var i := 0;
      while i < |walk|
        invariant 0 <= i <= |walk|
        invariant entries == Descendants(Added(old(entries), root, Directory, DirectorySize), root, walk[..i])
      {
        var o := walk[i];
        if o.path != root {
          if o.isDir {
            Add(o.path, Directory, DirectorySize);
          } else {
            Add(o.path, File, o.size);
          }
          SetStatus(o.path, Complete);
        }
        assert walk[..i + 1][..i] == walk[..i];
        i := i + 1;
      }
      assert walk[..i] == walk;
      NewDirectoryRegisters(old(entries), root, walk);
    }

    method Remove(path: Path)
      modifies this
      ensures entries == Removed(old(entries), path)
    {
      if !IsExists(path) {
        return;
      }
      entries := entries - {path};
    }

    /** The entry for path, or the zero value when path is unknown. */
    function Get(path: Path): (fs: FileStatus)
      reads this
      ensures path in entries ==> fs == entries[path]
      ensures path !in entries ==> fs == ZeroStatus
    {
      EntryAt(entries, path)
    }

    function IsExists(path: Path): (b: bool)
      reads this
      ensures b <==> path in entries
      ensures b && WellKeyed(entries) ==> Get(path).path == path
    {
      path in entries
    }

    method SetStatus(path: Path, status: Status)
      modifies this
      ensures entries == WithStatus(old(entries), path, status)
    {
      var fs := Get(path);
      entries := entries[path := FileStatus(path, status, fs.kind, fs.size, fs.checkCount)];
    }

    /** The check count of path; 0 for an unknown path. */
    function GetCount(path: Path): (c: int)
      reads this
      ensures path in entries ==> c == entries[path].checkCount
      ensures path !in entries ==> c == 0
    {
      Get(path).checkCount
    }

    method SetCount(path: Path, checkCount: int)
      modifies this
      ensures entries == WithCount(old(entries), path, checkCount)
    {
      var fs := Get(path);
      entries := entries[path := FileStatus(path, fs.status, fs.kind, fs.size, checkCount)];
    }

    method ResetCount(path: Path)
      modifies this
      ensures entries == WithCount(old(entries), path, 0)
    {
      SetCount(path, 0);
    }

    method IncrementCount(path: Path)
      modifies this
      ensures entries == Incremented(old(entries), path)
    {
      var fs := Get(path);
      entries := entries[path := FileStatus(path, fs.status, fs.kind, fs.size, fs.checkCount + 1)];
    }

    /** The recorded size of path; 0 for an unknown path. */
    function GetSize(path: Path): (s: int)
      reads this
      ensures path in entries ==> s == entries[path].size
      ensures path !in entries ==> s == 0
    {
      Get(path).size
    }

    method SetSize(path: Path, size: int)
      modifies this
      ensures entries == WithSize(old(entries), path, size)
    {
      var fs := Get(path);
      entries := entries[path := FileStatus(path, fs.status, fs.kind, size, fs.checkCount)];
    }

    /** An unknown path is not idle: its zero status is not Idle. */
    function IsIdle(path: Path): (b: bool)
      reads this
      ensures b <==> path in entries && entries[path].status == Idle
    {
      Get(path).status == Idle
    }
  }
}

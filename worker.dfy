/**
 * The worker: after each copy it reconciles the table. The task's source is
 * marked Complete unless it is Idle, which means the scanner saw it change
 * while the copy was running; such an entry stays Idle and will be sent again.
 * Whether the copy itself succeeded plays no part.
 */
module Worker {
  import opened StatusTable
  import opened Scanner
  import opened Scheduler

  /** One transfer: a local source path and the remote destination it is copied to. */
  datatype Task = Task(src: Path, dst: Path)

  /** The table after the worker has reconciled the entry for path. */
  function Reconciled(m: Entries, path: Path): (r: Entries)
    ensures path in m && m[path].status == Idle ==> r == m
    ensures OnlyKeyChanged(m, r, path)
    ensures path in r && r[path].status == (if EntryAt(m, path).status == Idle then Idle else Complete)
    ensures r[path].kind == EntryAt(m, path).kind && r[path].size == EntryAt(m, path).size
    ensures r[path].checkCount == EntryAt(m, path).checkCount
    ensures WellKeyed(m) ==> WellKeyed(r)
    ensures Consistent(m) ==> Consistent(r)
  {
    if EntryAt(m, path).status == Idle then m else WithStatus(m, path, Complete)
  }

  /**
   * The race the reconciliation rule exists for: a file is in flight, the
   * scanner sees its size change before the copy ends, and the worker then
   * reconciles. The file is left Idle with the new size and count 0, so the
   * next passes debounce it afresh instead of taking it as done.
   */
  lemma ChangeDuringTransferIsKept(m: Entries, src: Path, v: Visit, threshold: int)
    requires v.entry.path != src && !v.entry.isDir
    requires v.entry.path in m && m[v.entry.path].status == Transferring
    requires v.entry.size != m[v.entry.path].size
    ensures var p := v.entry.path; var r := Reconciled(UpdateStep(m, src, v), p);
      && OnlyKeyChanged(m, r, p)
      && r[p] == FileStatus(p, Idle, m[p].kind, v.entry.size, 0)
      && (Eligible(r[p], threshold) <==> m[p].kind == Directory || threshold <= 0)
  {
    UpdateStepEffect(m, src, v);
  }
}

# ssh-sync: the change-detection and debounce engine

ssh-sync is a daemon that watches a local source directory and copies what
changes to a remote destination with `scp`. Its core is a state table. The
table maps each walked path to a `FileStatus`, which holds the path, a status
(`idle`, `transferring`, `complete`), a kind (file or directory), a size and a
check count. Four passes change the table:

- the baseline walk at startup (`InitExisting`) registers every path and forces it `complete`;
- the incremental walk of each poll cycle (`UpdateFileStatus`) does three things:
  - it registers new files `idle`;
  - it registers new directories `idle`, with their contents `complete`;
  - it sends a known file whose size changed back to `idle` with count 0;
- the scheduler pass (`ScanTargets`) handles each `idle` entry. A directory is
  emitted at once. A file is emitted once its count has reached the threshold
  and otherwise has its count bumped. This is the debounce;
- the worker (`Transfer`) reconciles each task after its copy. The source
  becomes `complete` unless the scanner has meanwhile made it `idle` again.

The model is sequential and has five modules:

- `StatusTable` (`status_table.dfy`) holds the entry types. It has one pure
  map-level function per table operation, stating the map that operation
  leaves behind. It also has the class `FileStatusTable`, whose methods
  overwrite the `entries` map in place and are proved equal to those functions.
- `Scanner` (`scanner.dfy`) defines the two walks as folds over their
  observations, `Baseline` and `UpdatePass`, with lemmas about what they leave.
- `Scheduler` (`scheduler.dfy`) holds the per-entry transition
  `ScheduleEntry`, the whole-table result `Schedule` and the emitted sequence
  `EmittedIn`. It also holds the debounce lemmas.
- `Worker` (`worker.dfy`) holds the reconciliation rule.
- `Sync` (`sync.dfy`) holds the class `Transfer`. It owns a `FileStatusTable`
  and runs the passes as loops over their inputs. Each pass method is proved
  equal to the matching fold and keeps the invariant `Valid()`: every entry
  carries its own key and a real status.

Go reads a missing key of a map as the zero value. The setters rebuild an
entry from what they read, so a setter applied to an unknown path creates an
entry. The model keeps this behaviour. `NoStatus`, `NoKind` and `ZeroStatus`
stand for the zero values, so the table methods have no preconditions.

Walks are inputs. A walk is the sequence of observations `(path, isDir,
size)` it delivered, and a `WalkError` says how it ended. For the incremental
walk, each visit also carries the observations that `AddNewDirectory`'s own
walk of a new directory delivers. A scheduler pass gets the order in which it
visits the keys as a parameter, since Go's map iteration order is unspecified.
The copy's outcome is a `copyFailed` parameter, which the model ignores, as
the program does.

## Model

| member | source | states |
|---|---|---|
| StatusTable.Added | main.go:245-253 | the path maps to an Idle entry with the given kind and size, count 0 and its own path, whatever was there before; every other key is unchanged; consistency is kept |
| StatusTable.FileStatusTable.Add | main.go:245-253 | the table becomes `Added` of the old table |
| StatusTable.FileStatusTable.AddNewFile | main.go:255-257 | the table becomes `Added` of the old table with kind File |
| StatusTable.NewDirectoryRegisters | main.go:259-281 | after AddNewDirectory, the root is an Idle Directory of size 4096 (the directorySize constant) with count 0; every descendant observation is present and Complete; the last observation of a path gives its kind and size (4096 for directories); only the root and descendants change; the table stays well keyed and consistent |
| StatusTable.FileStatusTable.AddNewDirectory | main.go:259-286 | the table becomes `NewDirectory` of the old table; the root is an Idle 4096-byte directory and every descendant is Complete |
| StatusTable.DescendantsKeys | main.go:262-281 | the descendant walk adds exactly the observed paths other than the root, and keeps every other entry |
| StatusTable.DescendantsComplete | main.go:273-278 | every descendant observation ends Complete |
| StatusTable.DescendantsLast | main.go:273-278 | a descendant's entry comes from its last observation: its kind, its size or 4096 for a directory, count 0 |
| StatusTable.DescendantsConsistent | main.go:262-281 | the descendant walk keeps the table well keyed and consistent |
| StatusTable.Removed | main.go:288-293 | exactly the given key is gone, an unknown key leaves the table as it was, and every other entry is kept |
| StatusTable.FileStatusTable.Remove | main.go:288-293 | the table becomes `Removed` of the old table |
| StatusTable.FileStatusTable.Get | main.go:295-297 | the stored entry, or the zero value for an unknown path |
| StatusTable.FileStatusTable.IsExists | main.go:299-302 | true exactly when the path is a key |
| StatusTable.WithStatus | main.go:304-313 | only the status of that path changes, to the given one; kind, size and count stay as read (zero values for an unknown path); every other key is unchanged |
| StatusTable.FileStatusTable.SetStatus | main.go:304-313 | the table becomes `WithStatus` of the old table |
| StatusTable.FileStatusTable.GetCount | main.go:315-318 | the stored check count, 0 for an unknown path |
| StatusTable.WithCount | main.go:320-329 | only the check count of that path changes, to the given one; every other field and key is unchanged |
| StatusTable.FileStatusTable.SetCount | main.go:320-329 | the table becomes `WithCount` of the old table |
| StatusTable.FileStatusTable.ResetCount | main.go:331-333 | the table becomes `WithCount` of the old table with count 0 |
| StatusTable.Incremented | main.go:335-344 | the check count of that path becomes the old count plus one; every other field and key is unchanged |
| StatusTable.FileStatusTable.IncrementCount | main.go:335-344 | the table becomes `Incremented` of the old table |
| StatusTable.FileStatusTable.GetSize | main.go:346-349 | the stored size, 0 for an unknown path |
| StatusTable.WithSize | main.go:351-360 | only the size of that path changes, to the given one; every other field and key is unchanged |
| StatusTable.FileStatusTable.SetSize | main.go:351-360 | the table becomes `WithSize` of the old table |
| StatusTable.FileStatusTable.IsIdle | main.go:362-365 | true exactly when the path is known and Idle; an unknown path is not Idle |
| StatusTable.Registered | main.go:101-102 | Add followed by SetStatus(Complete) leaves the path Complete with the given kind and size, count 0; every other key is unchanged |
| StatusTable.KindOf | main.go:94-99 | an observation is a Directory exactly when it is a directory, and a File otherwise |
| Scanner.BaselineKeys | main.go:87-103 | the baseline walk adds exactly the observed paths and keeps every other entry |
| Scanner.BaselineComplete | main.go:87-103 | after the baseline walk every observed path, the root included, is present and Complete |
| Scanner.BaselineLast | main.go:94-102 | a path's baseline entry comes from its last observation: Complete, its kind, its walked size, count 0 |
| Scanner.BaselineConsistent | main.go:87-103 | the baseline walk keeps the table consistent |
| Scanner.UpdateStepEffect | main.go:125-147 | the root is skipped. A known directory, and a known file of unchanged size, are left alone. A known file of a new size becomes Idle with that size and count 0, whatever its status was. A new file becomes Idle with its size. A new directory becomes Idle with Complete descendants. Nothing is removed, and no changed entry is Transferring |
| Scanner.NewDirectoryStep | main.go:132-136 | a new directory seen by the incremental walk becomes Idle with Complete descendants; nothing is removed; every changed entry is Idle or Complete; consistency is kept |
| Scanner.QuietStep | main.go:125-147 | one visit leaves the table exactly as it was if and only if it is the root, a known directory, or a known file of its recorded size |
| Scanner.QuietPass | main.go:117-152 | an incremental walk made only of such visits leaves the table as it was |
| Scanner.UpdatePassEffect | main.go:117-152 | over a whole incremental walk, no key is removed; every observed path below the root is present; every changed or new entry is Idle or Complete; consistency is kept |
| Scheduler.ScheduleEntry | main.go:171-189 | a non-Idle entry is unchanged. An Idle directory becomes Transferring. An Idle file with count >= threshold becomes Transferring with count 0. Any other Idle file stays Idle with count + 1. Path, kind and size never change |
| Scheduler.Schedule | main.go:171-189 | a pass keeps the keys and applies `ScheduleEntry` to each entry; its only status edge is Idle to Transferring; non-Idle entries are unchanged; consistency is kept |
| Scheduler.ScheduledPrefixAt | main.go:171-189 | a pass over distinct keys applies `ScheduleEntry` once to each visited entry and leaves the others alone |
| Scheduler.ScheduledPrefixIsSchedule | main.go:171-191 | a pass that visits every key once, in any order, yields `Schedule`: the result does not depend on the iteration order |
| Scheduler.EmittedIn | main.go:171-189 | a pass emits at most one entry per visited key; every emitted entry is eligible (Idle, and a directory or a file with count >= threshold); in a well-keyed table each is the table's entry for a visited key |
| Scheduler.EmittedExactlyEligible | main.go:171-191 | a full pass emits an entry if and only if it is eligible |
| Scheduler.EmittedOnce | main.go:171-191 | a full pass emits no path twice |
| Scheduler.NothingIdleNothingEmitted | main.go:172-174 | a table with no Idle entry emits nothing |
| Scheduler.CountsUp | main.go:186-188 | below the threshold, each pass adds exactly one to an Idle file's count and changes nothing else |
| Scheduler.DebounceFrom | main.go:181-188 | an Idle file at any count is not emitted for max(threshold - count, 0) passes and is emitted on the next one, reset to count 0 and Transferring |
| Scheduler.Debounce | main.go:181-188 | a file that enters Idle with count 0 stays Idle through passes 1 to threshold, is not emitted on any of them, and is emitted on pass threshold + 1 (the first pass when threshold <= 0), ending Transferring with count 0 |
| Scheduler.NewDirectoryIsOneTransfer | main.go:177-179 | after AddNewDirectory (which registers the root Idle and its descendants Complete) the root is eligible and no descendant is, so the directory goes out as one recursive copy |
| Worker.Reconciled | main.go:207-212 | a non-Idle or unknown source becomes Complete with its other fields kept; an Idle source is left as it is; every other key is unchanged; consistency is kept |
| Worker.ChangeDuringTransferIsKept | main.go:210-212 | a file whose size changes while it is being copied (the incremental walk resets it to Idle) ends Idle, with its new size and count 0, after the worker reconciles; it is then debounced afresh |
| Sync.Transfer.constructor | main.go:44-53 | a transfer starts with an empty table and the given configuration |
| Sync.Transfer.InitExisting | main.go:83-115 | the table becomes `Baseline` of the old table; every observed path is Complete; the table stays valid; the result says whether the walk error is a not-exist error, which ends the process |
| Sync.Transfer.RegisterExisting | main.go:94-102 | one baseline callback: the table becomes `Registered` of the old table |
| Sync.Transfer.UpdateFileStatus | main.go:117-161 | the table becomes `UpdatePass` of the old table; no key is removed; every changed entry is Idle or Complete; the table stays valid; the result says whether the walk error is a not-exist error |
| Sync.Transfer.ScanTargets | main.go:163-197 | given an enumeration of the keys, the table becomes `Schedule` of the old table and the emitted entries are `EmittedIn` the old table, in visiting order, as they were when visited |
| Sync.Transfer.SchedulePath | main.go:171-189 | one key of the scheduler pass: the entry read, whether it is emitted (exactly when eligible), and the table with `ScheduleEntry` applied at that key |
| Sync.Transfer.Transfer | main.go:199-212 | whatever the copy's outcome, the table becomes `Reconciled` of the old table at the task's source |
| Sync.Transfer.Startup | main.go:55-59 | startup runs the baseline walk. It stops there on a not-exist error, or returns after one transfer of the whole source root unless existing content is ignored. Either way every observed path ends Complete |
| Sync.BaselineAllComplete | main.go:83-115 | a baseline walk into an empty table leaves every entry Complete |
| Sync.StartedSettled | main.go:55-59 | after startup, with or without the transfer of the root, every entry is Complete, the table is consistent, and every path holds the size of its last baseline observation |
| Sync.StartupThenQuietCycle | main.go:55-79 | after startup, a poll cycle whose incremental walk finds the tree as the baseline saw it leaves the table unchanged; its scheduler pass then changes nothing and emits nothing. The table is a fixed point of such cycles, so the startup transfer of the root is the only one |

## Left out

- Argument parsing, flags and the usage message (`ParseArgs`, `Args`) are CLI plumbing.
- `debug` and `debugMode` only produce output.
- The `scp` child process is an external program. Its outcome enters `Sync.Transfer.Transfer` as `copyFailed`, which is not used, as in the program.
- `filepath.Walk` and `os.FileInfo` are filesystem I/O. Each walk is an input sequence of observations and a `WalkError`. A walk that fails part-way is the prefix it delivered.
- `os.Exit(1)`: the passes return `exits` instead of ending the process.
- The inner walk of `AddNewDirectory` can also fail. The model covers that failure only through the observation prefix the walk delivers. That error is only logged.
- The poll loop of `Start`, the worker goroutine, the task channel, the mutex and `time.Sleep` are concurrency and timing. The model runs one pass at a time. What the model does not capture:
  - the scheduler goroutine ranges over the map (main.go:171) without holding the lock, while the worker's `SetStatus` (main.go:211) may write it;
  - the scheduler goroutine holds the lock while it blocks sending on the unbuffered target channel (main.go:176-190). With three eligible entries in one pass, the main loop can be blocked handing the second task to the busy worker, and the worker then waits for the lock at main.go:207: a deadlock.
  No new keys are inserted during the range. The next incremental walk starts only after the target channel is closed (main.go:72, main.go:193).
- `ScanTargets`'s `table := t.table` copies a map reference, not the map. The pass therefore reads the live table. Sequentially this is the same, because each key is read before the pass updates it.
- The destination path `filepath.Join(t.dst, target.path)` and the `checkDuration` interval are not modelled. `Sync.Transfer.ScanTargets` returns the emitted entries, and the caller builds tasks from them.
- Go `int` is 64 bits wide on 64-bit platforms. The model uses unbounded integers. On a 32-bit platform `int(info.Size())` (main.go:101, main.go:138, main.go:276) would truncate; the model takes sizes as the observations deliver them. A check count only grows while it is below the threshold, so it cannot wrap.
- The model does not call `Remove`, and neither does the program.
- Two points about the code that the model follows as written:
  - Exiting: any not-exist error a walk reports ends the process (main.go:108-110, main.go:154-156). That includes an error for a path that vanished during the walk, not only a missing source root.
  - Counting: with `-count n` (main.go:389) for n >= 1, the scheduler pass of the same cycle that sees a new or changed file already raises its count to 1, and the file goes out on pass n + 1. With n <= 0 (the default is 0) it goes out on that same pass (main.go:181-185, `Scheduler.Debounce`).
- A directory registered by an incremental walk is emitted by the scheduler pass of that same cycle (`Scheduler.NewDirectoryIsOneTransfer`), not one cycle later.

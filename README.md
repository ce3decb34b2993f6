# AsyncIO transactions, file copies and tree copies, in Dafny

This project models the mutating core of the AsyncIO library and its
transaction facility. An `IO` object owns one `Transaction`: a running flag
and a stack of undo actions. Every write and copy made through its `File`
and `Directory` operations works in three steps:

1. It creates the folder of its target.
2. While the transaction is running, it pushes an undo action for the target.
3. It mutates the disk.

`Commit` drops the stack. `Rollback` pops every action, most recent first,
and invokes it. An action deletes the folder of its target, with everything
in it, if that folder was created at or after the registration time minus
50 ms. Otherwise it deletes the target file, if the file was last written at
or after that threshold.

The host filesystem is a map from paths (sequences of names) to folders,
which carry a creation time, and files, which carry bytes and a last-write
time. The class `Host.Disk` holds the current map. Every primitive the
library calls is a function from one map to the next, with the `Disk`
method applying it in place. The primitives are `Directory.CreateDirectory`,
`File.WriteAllBytes`, `File.Copy`, `FileStream` with `FileMode.CreateNew`,
`Directory.Delete(path, true)` and `File.Delete`. The clock is a parameter:
each operation receives one clock reading `now`. A tree copy uses that one
reading for every folder it creates and every file it writes, as if the whole
copy happened in one instant; `RollbackRemovesFreshTarget` relies on this. In
a sequence of operations (`Sessions`) each call has its own reading, and the
readings never decrease.

The modules:

- `Paths`: paths, parents, `Path.Combine`.
- `Outcomes`: which exception an operation throws, if any.
- `FileSystem` and `Host`: the disk.
- `UndoLog`: undo actions, what invoking one does, and what a rollback of a
  whole stack does.
- `Transactions`: the `Transaction` class.
- `CoreFile`: `AsyncIO.Core.AsyncFile`.
- `CoreDirectory`: `AsyncIO.Core.AsyncDirectory`.
- `CoreIO`: `AsyncIO.Core.IO` and scenarios of whole transactions.
- `Legacy`: the older `AsyncIO.AsyncFile` and `AsyncIO.AsyncDirectory`, which
  have no transaction.
- `Sessions`: a sequence of writes and copies made through one `IO` inside a
  transaction, and what `Commit` and `Rollback` leave after it.

Each file operation is a method on the disk and the transaction. It is proved
to leave the disk as a function of the disk it started from says
(`WriteEffect`, `CopyEffect`, `CopyAsyncEffect`, `CopyBufferedEffect`), and to
push exactly the undo entry `Pushed` says. Lemmas relate those functions to
undo and rollback.

The tree copy `CopyAll` is a recursive method with two loops. Its contract,
`TreeCopied` and `TreeLogged`, says four things:

- It changes the disk only on the way to the target and beneath it.
- It leaves the source tree alone.
- Every entry it adds or changes beneath the target stands for an entry of
  the source. An entry already there with no counterpart in the source is
  left as it was (`TreeCopyKeepsUnmatched`).
- On success, the target mirrors the source.

It also says which undo entries the copy registers: one per source file,
none twice, the direct files first, and all of them when the copy succeeds
in a running transaction.

The asynchronous `CopyAllAsync` is modelled by its sequential meaning:

- Every copy it starts runs.
- The first failure among them is reported.
- A failure that the loop body throws synchronously ends the call at once:
  listing the source, or `CreateSubdirectory`.

A flag `settle` selects this behaviour in the same method.

The legacy classes wrap the core classes over a private transaction that is
never begun. They have the same disk effect and register nothing.

Where the library's specification and its code disagree, the model follows
the code:

- `Commit` and `Rollback` on an idle transaction succeed. Their guard tests
  whether the stack object is null, and it never is.
- Creating folders registers no undo action; only file writes and copies do.
  A rollback therefore removes a copied tree only through the folder that
  directly holds a copied file. `FilelessTreeRegistersNothing` and
  `CopyFilelessDirectoryAndRollback` show that a copied tree without files
  survives a rollback.
- An undo action deletes only the folder directly holding its path. Folders
  further up that the same write created stay (`NewGrandparentSurvivesUndo`).
- The `Write*` methods and the whole-file `CopyAsync` overwrite an existing
  target. `CopyAsync` of a file onto itself succeeds, and a rollback then
  deletes the file (`SelfCopyAsyncIsLostOnUndo`).
- `File.Copy` keeps the source's last-write time. A copy of an old file into
  an old folder therefore survives a rollback, although its target is new
  (`CopyUndoRemovesTargetIff`). A rollback removes every target of a sequence
  only for the writes and the copies that stamp their target
  (`Sessions.RollbackUndoesSession`).
- A file copy registers its undo action before it touches the target. A copy
  that then fails has still registered it, including a `File.Copy` of a file
  onto itself (`SelfCopyAndRollback`) and a buffered copy onto an existing
  file (`FailedBufferedCopyStillUndoes`).
- The buffered copy is not only a throughput setting. A zero buffer writes an
  empty file. A negative buffer throws after the target was created empty.
- The `overwrite` arguments that `AsyncDirectory` passes match no
  `AsyncFile` overload, so the tree copies use the two- and three-argument
  file copies.

## Model

| member | source | states |
|---|---|---|
| UndoLog.UndoEffect | AsyncIO.Core/Operations/AsyncFile.cs:322-335 | invoking an action: nothing if its folder is missing; the whole folder tree if the folder was created at or after the threshold; otherwise the target file alone, and only if it was written at or after the threshold; nothing is ever added or changed |
| UndoLog.Invoke | AsyncIO.Core/Operations/AsyncFile.cs:324-333 | the closure's tests, run on the disk, leave exactly `UndoEffect` of the disk it started from |
| UndoLog.UndoRemovesPath | AsyncIO.Core/Operations/AsyncFile.cs:326-333 | an action whose folder is recent, or whose file is recent, removes its path |
| UndoLog.UndoRemovesFolder | AsyncIO.Core/Operations/AsyncFile.cs:326-328 | an action whose folder is recent removes that folder |
| UndoLog.LiveKeepsEveryEntry | AsyncIO.Core/Operations/Transaction.cs:88-91 | null entries are skipped; every non-null entry is met as often as it was pushed, and nothing else is met |
| UndoLog.RollbackOrderReversesLive | AsyncIO.Core/Operations/Transaction.cs:86-92 | rollback meets the non-null entries in exactly the reverse of their push order |
| UndoLog.ReplayShrinks | AsyncIO.Core/Operations/Transaction.cs:86-92 | a rollback only deletes entries, and keeps the tree well formed |
| UndoLog.RollbackRemovesPath | AsyncIO.Core/Operations/Transaction.cs:86-92 | an entry of the stack that would remove its path when invoked on the disk it starts from still removes it after the later actions of the rollback ran first |
| UndoLog.RollbackRemovesFolder | AsyncIO.Core/Operations/Transaction.cs:86-92 | an entry whose folder is recent leaves nothing of that folder after the rollback |
| Transactions.Transaction.constructor | AsyncIO.Core/Operations/Transaction.cs:24-28 | a new transaction is idle with an empty stack |
| Transactions.Transaction.BeginTransaction | AsyncIO.Core/Operations/Transaction.cs:43-56 | when running: throws `InvalidOperationException` and changes nothing; otherwise raises the flag and keeps the stack |
| Transactions.Transaction.Commit | AsyncIO.Core/Operations/Transaction.cs:61-72 | always succeeds, leaving the transaction idle with an empty stack without invoking any action |
| Transactions.Transaction.Rollback | AsyncIO.Core/Operations/Transaction.cs:77-96 | invokes the non-null entries from the top of the stack down, the disk ending as their replay, then leaves the transaction idle and empty |
| Transactions.Transaction.End | AsyncIO.Core/Operations/Transaction.cs:98-102 | clears the flag and the stack |
| Transactions.Lifecycle | AsyncIO.Core/Operations/Transaction.cs:43-72 | Begin succeeds, a second Begin fails, Begin succeeds again after Commit, and Commit on an idle transaction succeeds |
| CoreFile.PrepareFolder | AsyncIO.Core/Operations/AsyncFile.cs:133-134 | creating the folder of a path succeeds exactly when the path is not the root and no file stands on the way; then the folder exists, and only folders on the way to it were added |
| CoreFile.WriteEffect | AsyncIO.Core/Operations/AsyncFile.cs:131-136 | a write succeeds exactly when the folder can be created and the path is not a folder; it leaves the payload stamped `now` at the path; a failure leaves the disk as it was |
| CoreFile.CopyEffect | AsyncIO.Core/Operations/AsyncFile.cs:241-246 | `File.Copy` succeeds exactly when the folder can be created, the source is a file and the target does not exist; the target is then the source's node |
| CoreFile.CopyAsyncEffect | AsyncIO.Core/Operations/AsyncFile.cs:255-260 | the whole-file copy succeeds exactly when the folder can be created, the source is a file and the target is not a folder; the target then holds the source's bytes stamped `now` |
| CoreFile.CopyBufferedEffect | AsyncIO.Core/Operations/AsyncFile.cs:269-287 | the buffered copy succeeds exactly when the folder can be created, the source is a file, the target does not exist and the buffer length is not negative; the target then holds the transferred bytes; a negative length throws after creating the target empty |
| CoreFile.TransferReproducesSource | AsyncIO.Core/Operations/AsyncFile.cs:278-284 | a positive buffer transfers every byte of the source in order; a zero buffer transfers nothing |
| CoreFile.AsyncFile.HandleTransaction | AsyncIO.Core/Operations/AsyncFile.cs:316-337 | pushes exactly one entry, for the path with its folder and the threshold `now - 50`, when running, and nothing when idle |
| CoreFile.AsyncFile.Write | AsyncIO.Core/Operations/AsyncFile.cs:131-234 | the disk ends as `WriteEffect` says, and the stack grows by the entry for the path exactly when running and the folder could be created |
| CoreFile.AsyncFile.Copy | AsyncIO.Core/Operations/AsyncFile.cs:241-247 | the disk ends as `CopyEffect` says, and the stack grows by the entry for the target exactly when running and the folder could be created |
| CoreFile.AsyncFile.CopyAsync | AsyncIO.Core/Operations/AsyncFile.cs:255-261 | the disk ends as `CopyAsyncEffect` says, with the same registration |
| CoreFile.AsyncFile.CopyBuffered | AsyncIO.Core/Operations/AsyncFile.cs:269-314 | the disk ends as `CopyBufferedEffect` says, with the same registration, which is made even when the target already exists |
| CoreFile.AsyncFile.CopyLoop | AsyncIO.Core/Operations/AsyncFile.cs:278-284 | the read/write loop appends chunks until a read returns nothing, leaving `Transfer(data, bufferLength)` in the target |
| CoreFile.WriteThenRollbackRemovesTarget | AsyncIO.Core/Operations/AsyncFile.cs:131-136 | after a successful write whose entry is on the stack, a rollback of that stack, whatever else it holds, leaves no entry at the path |
| CoreFile.WriteThenUndoRestores | AsyncIO.Core/Operations/AsyncFile.cs:320-333 | writing a new file into an old folder and undoing it restores the disk exactly |
| CoreFile.OverwrittenFileIsLostOnUndo | AsyncIO.Core/Operations/AsyncFile.cs:330-333 | writing over an existing file succeeds, and undoing deletes the file rather than restoring it |
| CoreFile.RecentFolderIsDeletedWhole | AsyncIO.Core/Operations/AsyncFile.cs:326-328 | a folder created within the tolerance before the write is deleted on undo with all it held |
| CoreFile.NewGrandparentSurvivesUndo | AsyncIO.Core/Operations/AsyncFile.cs:321-328 | a folder two levels up that the write created is still there after undo |
| CoreFile.SelfCopyIsRefused | AsyncIO.Core/Operations/AsyncFile.cs:241-287 | `File.Copy` and the buffered copy of a file onto itself fail and change nothing |
| CoreFile.UndoSparesOldFile | AsyncIO.Core/Operations/AsyncFile.cs:326-333 | undo changes nothing when the folder and the file both predate the threshold |
| CoreFile.SelfCopyAsyncIsLostOnUndo | AsyncIO.Core/Operations/AsyncFile.cs:255-260 | the whole-file copy of a file onto itself succeeds and restamps it, so undo deletes it |
| CoreFile.CopyUndoRemovesTargetIff | AsyncIO.Core/Operations/AsyncFile.cs:241-246 | undo removes a `File.Copy` target exactly when its folder was new or recent, or the source it kept the time of was written within the tolerance |
| CoreFile.FailedBufferedCopyStillUndoes | AsyncIO.Core/Operations/AsyncFile.cs:273-276 | the buffered copy onto an existing file fails, yet registers an entry that deletes that file on undo if it was recently written |
| CoreDirectory.Children | AsyncIO.Core/Operations/AsyncDirectory.cs:97-105 | `GetFiles` and `GetDirectories` list exactly the names of the files, or folders, directly in the folder |
| CoreDirectory.AsyncDirectory.CopyFile | AsyncIO.Core/Operations/AsyncDirectory.cs:102 | the file copy of the overload in use copies as its effect function says and registers its entry |
| CoreDirectory.AsyncDirectory.CopyEntry | AsyncIO.Core/Operations/AsyncDirectory.cs:97-103 | one round of the file loop copies the file `n` to the same name in the target and pushes its entry when running |
| CoreDirectory.AsyncDirectory.CopyFiles | AsyncIO.Core/Operations/AsyncDirectory.cs:97-103 | the file loop adds or changes beneath the target only files named after direct files of the source, so every other entry there keeps its content; without a failure every direct file is copied to the same name; it registers only entries for direct files, none twice, and all of them when it succeeds in a running transaction |
| CoreDirectory.AsyncDirectory.CopyChild | AsyncIO.Core/Operations/AsyncDirectory.cs:105-109 | one round of the folder loop creates the same-named folder in the target, then copies the child tree into it; a failed creation is thrown |
| CoreDirectory.AsyncDirectory.CopySubdirectories | AsyncIO.Core/Operations/AsyncDirectory.cs:105-109 | every entry it adds or changes beneath the target stands for a source entry of the same sort, and the trees at target folders with no source folder are untouched; without a failure the folder loop mirrors every source folder into the same-named target folder; it registers only entries for files below the direct folders, none twice, and all of them when it succeeds in a running transaction |
| CoreDirectory.AsyncDirectory.CopyTree | AsyncIO.Core/Operations/AsyncDirectory.cs:93-110 | `CopyAll`: creates the target, copies the direct files, then the folders; it changes only the way to the target and entries beneath it that stand for source entries, leaves the source tree alone; on success the target mirrors the source; it registers one entry per source file, direct files first, none twice |
| CoreDirectory.AsyncDirectory.Copy | AsyncIO.Core/Operations/AsyncDirectory.cs:39-45 | the synchronous tree copy with `File.Copy` for each file |
| CoreDirectory.AsyncDirectory.CopyAsync | AsyncIO.Core/Operations/AsyncDirectory.cs:54-60 | the asynchronous tree copy with the whole-file copy for each file: it rewrites only target files named after source files, and on success the target mirrors the source with every file stamped `now` |
| CoreDirectory.AsyncDirectory.CopyBuffered | AsyncIO.Core/Operations/AsyncDirectory.cs:69-75 | the synchronous tree copy passing the same buffer length to every file copy at every depth |
| CoreDirectory.AsyncDirectory.CopyBufferedAsync | AsyncIO.Core/Operations/AsyncDirectory.cs:85-91 | the asynchronous tree copy passing the same buffer length to every file copy |
| CoreDirectory.FreshTargetMirrorsExactly | AsyncIO.Core/Operations/AsyncDirectory.cs:93-110 | a successful copy into a new target leaves beneath it an entry for each source entry and no other, a folder for each folder, and each file as its file copy writes it |
| CoreDirectory.RollbackRemovesFreshTarget | AsyncIO.Tests/Acceptance/IOTests.cs:206-222 | rolling back a copy into a new target from a folder holding a file directly leaves nothing of the target |
| CoreDirectory.TreeCopyKeepsUnmatched | AsyncIO.Core/Operations/AsyncDirectory.cs:97-109 | an entry already beneath the target with no counterpart beneath the source is unchanged by the tree copy, for every file copy and even after a failure |
| CoreDirectory.FilelessTreeRegistersNothing | AsyncIO.Core/Operations/AsyncDirectory.cs:93-110 | a tree copy of a source without files registers no undo entry |
| CoreIO.IO.constructor | AsyncIO.Core/IO.cs:25-35 | a new `IO` owns a fresh idle transaction, which `File` uses and on which `Directory` is built |
| CoreIO.IO.BeginTransaction | AsyncIO.Core/IO.cs:82-85 | delegates to the transaction's Begin |
| CoreIO.IO.Commit | AsyncIO.Core/IO.cs:90-93 | delegates to the transaction's Commit |
| CoreIO.IO.Rollback | AsyncIO.Core/IO.cs:98-101 | delegates to the transaction's Rollback |
| CoreIO.IndependentInstances | AsyncIO.Core/IO.cs:30 | beginning one `IO` leaves another idle; writes through an instance that was never begun register nothing |
| CoreIO.WriteAndRollback | AsyncIO.Tests/Acceptance/IOTests.cs:25-37 | begin, write, roll back: the file is gone, and so is its folder if the write created it |
| CoreIO.WriteAndCommit | AsyncIO.Core/IO.cs:90-93 | begin, write, commit: the file holds the payload and the transaction is idle |
| CoreIO.CopyAndCommit | AsyncIO.Core/Operations/AsyncFile.cs:241-247 | begin, copy, commit: the target holds the source's bytes and the transaction is idle |
| CoreIO.SelfCopyAndRollback | AsyncIO.Tests/Acceptance/IOTests.cs:285-306 | begin, copy a file onto itself, roll back: the copy fails and the file, old enough, is untouched |
| CoreIO.CopyDirectoryAndRollback | AsyncIO.Tests/Acceptance/IOTests.cs:206-222 | begin, copy a tree into a new target, roll back: the target existed after the copy and nothing of it is left |
| CoreIO.CopyFilelessDirectoryAndRollback | AsyncIO.Core/Operations/AsyncDirectory.cs:93-110 | begin, copy a tree without files into a new target, roll back: the target and its mirror of the source are still there |
| Sessions.Effect | AsyncIO.Core/Operations/AsyncFile.cs:131-287 | a call that succeeds leaves its target present in an existing folder, the target not being the root nor blocked by a file; every call but `File.Copy` stamps the target `now` |
| Sessions.Perform | AsyncIO.Core/Operations/AsyncFile.cs:131-287 | a call through the file operations leaves the disk as `Effect` says and pushes its entry exactly when running and the folder could be created |
| Sessions.RunSession | AsyncIO.Core/Operations/AsyncFile.cs:316-337 | begin, then every call in turn whether or not earlier ones threw: the disk and the stack are those the calls produce, and each outcome reports whether its call succeeded |
| Sessions.ResultsAt | AsyncIO.Core/Operations/AsyncFile.cs:131-287 | the outcome recorded for each call is whether that call succeeded on the disk the earlier calls left |
| Sessions.RunKeepsDoomed | AsyncIO.Core/Operations/AsyncFile.cs:322-335 | calls made no earlier than an action's threshold keep a path that the action would delete there and deletable |
| Sessions.RunKeepsFolderDoomed | AsyncIO.Core/Operations/AsyncFile.cs:326-328 | later calls keep a recent folder recent: no call changes an existing folder |
| Sessions.CallDooms | AsyncIO.Core/Operations/AsyncFile.cs:316-337 | a successful call's entry is on the final stack and, after every later call, still deletes its target, unless the call was `File.Copy`, and deletes the target's folder if the call created it |
| Sessions.LogOfSucceeded | AsyncIO.Core/Operations/AsyncFile.cs:316-337 | when every call succeeded, the stack holds exactly one entry per call, in call order |
| Sessions.RollbackOrderOfPushes | AsyncIO.Core/Operations/Transaction.cs:86-92 | rollback pops those entries newest first |
| Sessions.RollbackReversesSession | AsyncIO.Core/Operations/Transaction.cs:86-92 | when every call succeeded, the `k`th action the rollback invokes is the entry of the `k`th call from the end |
| Sessions.RollbackUndoesSession | AsyncIO.Core/Operations/Transaction.cs:77-96 | after any sequence of calls, a rollback removes the target of every successful call that stamps its target, and everything in a folder that a successful call created for its target |
| Sessions.CommitKeepsSession | AsyncIO.Core/Operations/Transaction.cs:61-72 | after any sequence of calls, the target of every successful call is on the disk, which commit does not touch |
| Sessions.SessionAndRollback | AsyncIO.Core/Operations/Transaction.cs:77-96 | begin, a sequence of calls, rollback: the targets and created folders of the successful stamping calls are gone |
| Sessions.SessionAndCommit | AsyncIO.Core/Operations/Transaction.cs:61-72 | begin, a sequence of calls, commit: every successful call's target is there and the transaction is idle and empty |
| Sessions.ThreeWritesAndRollback | AsyncIO.Core/Operations/Transaction.cs:86-92 | begin, write `a`, write `b`, write `c` into a new folder, roll back: the actions run for `c`, then `b`, then `a`, and neither `a`, `b` nor anything of `c`'s folder is left |
| Legacy.AsyncFile.constructor | AsyncIO/AsyncFile.cs:14-17 | the wrapped core class runs on a private transaction that is idle and empty |
| Legacy.AsyncFile.Write | AsyncIO/AsyncFile.cs:64-110 | creates the folder, then writes, as `WriteEffect` says, registering nothing |
| Legacy.AsyncFile.Copy | AsyncIO/AsyncFile.cs:112-116 | `File.Copy` into a created folder, as `CopyEffect` says, registering nothing |
| Legacy.AsyncFile.CopyAsync | AsyncIO/AsyncFile.cs:118-122 | the whole-file copy, which overwrites, as `CopyAsyncEffect` says |
| Legacy.AsyncFile.CopyBuffered | AsyncIO/AsyncFile.cs:124-158 | the buffered copy with `FileMode.CreateNew`, as `CopyBufferedEffect` says |
| Legacy.AsyncDirectory.constructor | AsyncIO/AsyncDirectory.cs:15-18 | the wrapped core tree copy uses the legacy file copies |
| Legacy.AsyncDirectory.CopyTree | AsyncIO/AsyncDirectory.cs:52-138 | `CopyAll` and `CopyAllAsync` of both overloads: the same tree copy as the core, registering nothing |

## Left out

- Serialisation to JSON, BSON, XML and CSV, and every `Read*` method: the writes take the encoded payload as bytes.
- The JSON and CSV settings of `IO`, and the logger its constructor passes along.
- Concurrency: the `Task` fan-out of `CopyAllAsync`, the `SemaphoreSlim` of the transaction and the thread safety of `ConcurrentStack`. Each method runs atomically, and the asynchronous tree copy runs its tasks in the order they were started.
- Wall-clock time and timestamp resolution: the caller passes `now` as an integer, and the 50 ms tolerance is integer subtraction.
- The `overwrite` arguments, which no file copy overload takes.
- Tree copies whose source and target trees overlap: the tree copies require the two trees to be disjoint, which excludes three cases the code accepts. With the target inside the source, the code recurses until the host's path limit. With the source as its own target, `File.Copy` and the buffered copy fail on the first file, which exists, while the whole-file copy rewrites every file onto itself stamped `now`, so a rollback then deletes them all. With the target above the source, the copy writes the source's entries beside it and may write into the source tree while it lists it.
- Relative paths: every path of the model is absolute. For a bare file name the code gets the empty string from `Path.GetDirectoryName`, and `Directory.CreateDirectory("")` throws `ArgumentException`.
- CoreFile.WriteThenRollbackRemovesTarget: one write, then the rollback. The rollback of a whole sequence of writes and copies is `Sessions.RollbackUndoesSession`.
- Sessions.RollbackUndoesSession: the calls are file writes and file copies. A tree copy is covered on its own (`RollbackRemovesFreshTarget`), not as one call of a longer sequence.
- Exceptions other than the ones the model names (access rights, full disks, paths that are too long).
- CoreDirectory.AsyncDirectory.CopyTree: after a failure, the contract says only where the copy may have added entries and that each added entry stands for a source entry. It does not say which files were copied before the failure.
- CoreDirectory.AsyncDirectory.CopyAsync: every file copy pushes its undo entry synchronously, before its first `await`, so the entries arrive in the order of a sequential run. The contract states which entries are pushed, none twice, the direct files first, not that full order.
- Legacy.AsyncDirectory.CopyTree: states the disk effect only. The undo entries of the wrapped core copy go to the private idle transaction, which therefore stays empty.

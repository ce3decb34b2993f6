/**
 * The first `AsyncIO` package: the same writes, copies and tree copies as
 * `AsyncIO.Core`, without a transaction. Each legacy class wraps the core
 * class over a private transaction that is never begun, so the core's
 * `HandleTransaction` never registers anything; the lemmas of the core about
 * the disk carry over unchanged.
 */
module Legacy {
  import opened Paths
  import opened Outcomes
  import opened FileSystem
  import opened Host
  import opened UndoLog
  import opened Transactions
  import CoreFile
  import CoreDirectory

  class AsyncFile {
    const core: CoreFile.AsyncFile

    /** The private transaction stays idle and empty. */
    ghost predicate Valid()
      reads this, core, core.transaction
    {
      !core.transaction.running && core.transaction.actions == []
    }

    constructor ()
      ensures Valid() && fresh(core) && fresh(core.transaction)
    {
      var t := new Transaction();
      core := new CoreFile.AsyncFile(t);
    }

    /** `WriteJson`, `WriteBson`, `WriteXml`, `WriteCsv` and their `Async` forms. */
    method Write(path: Path, payload: seq<byte>, disk: Disk, now: Time) returns (r: Outcome)
      requires Valid() && disk.Valid()
      modifies disk, core.transaction
      ensures Valid() && disk.Valid()
      ensures Step(disk.entries, r) == CoreFile.WriteEffect(old(disk.entries), path, payload, now)
    {
      r := core.Write(path, payload, disk, now);
    }

    /** `Copy(sourcePath, targetPath)`. */
    method Copy(src: Path, dst: Path, disk: Disk, now: Time) returns (r: Outcome)
      requires Valid() && disk.Valid()
      modifies disk, core.transaction
      ensures Valid() && disk.Valid()
      ensures Step(disk.entries, r) == CoreFile.CopyEffect(old(disk.entries), src, dst, now)
    {
      r := core.Copy(src, dst, disk, now);
    }

    /** `CopyAsync(sourcePath, targetPath)`. */
    method CopyAsync(src: Path, dst: Path, disk: Disk, now: Time) returns (r: Outcome)
      requires Valid() && disk.Valid()
      modifies disk, core.transaction
      ensures Valid() && disk.Valid()
      ensures Step(disk.entries, r) == CoreFile.CopyAsyncEffect(old(disk.entries), src, dst, now)
    {
      r := core.CopyAsync(src, dst, disk, now);
    }

    /** `Copy(sourcePath, targetPath, bufferLength)` and `CopyAsync(sourcePath, targetPath, bufferLength)`. */
    method CopyBuffered(src: Path, dst: Path, bufferLength: int, disk: Disk, now: Time) returns (r: Outcome)
      requires Valid() && disk.Valid()
      modifies disk, core.transaction
      ensures Valid() && disk.Valid()
      ensures Step(disk.entries, r) == CoreFile.CopyBufferedEffect(old(disk.entries), src, dst, bufferLength, now)
    {
      r := core.CopyBuffered(src, dst, bufferLength, disk, now);
    }
  }

  class AsyncDirectory {
    const file: AsyncFile
    const core: CoreDirectory.AsyncDirectory

    ghost predicate Valid()
      reads this, file, file.core, file.core.transaction, core
    {
      core.file == file.core && file.Valid()
    }

    constructor (file: AsyncFile)
      requires file.Valid()
      ensures Valid() && this.file == file && fresh(core)
    {
      this.file := file;
      core := new CoreDirectory.AsyncDirectory(file.core);
    }

    /**
     * `Copy` and `CopyAsync` of both overloads: `kind` names the file copy,
     * `settle` the asynchronous form.
     */
    method CopyTree(S: Path, T: Path, kind: CoreDirectory.CopyKind, settle: bool, disk: Disk, now: Time) returns (r: Outcome)
      requires Valid() && disk.Valid() && Disjoint(S, T)
      modifies disk, file.core.transaction
      ensures Valid() && disk.Valid()
      ensures CoreDirectory.TreeCopied(old(disk.entries), disk.entries, S, T, kind, now, r.Pass?)
    {
      ghost var added;
      r, added := core.CopyTree(S, T, kind, settle, disk, now);
    }
  }
}

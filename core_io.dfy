/**
 * `AsyncIO.Core.IO`: the entry point that wires one transaction into the file
 * operations and the file operations into the directory operations, so that
 * every write and copy made through one `IO` registers on the same stack.
 * The JSON, BSON, XML and CSV settings it also holds are left out.
 */
module CoreIO {
  import opened Paths
  import opened Outcomes
  import opened FileSystem
  import opened Host
  import opened UndoLog
  import opened Transactions
  import opened CoreFile
  import opened CoreDirectory

  class IO {
    const transaction: Transaction
    /** `File`. */
    const file: AsyncFile
    /** `Directory`. */
    const directory: AsyncDirectory

    /** A fresh idle transaction, shared by `File` and, through it, by `Directory`. */
    constructor ()
      ensures fresh(transaction) && fresh(file) && fresh(directory)
      ensures file.transaction == transaction && directory.file == file
      ensures !transaction.running && transaction.actions == []
    {
      var t := new Transaction();
      var f := new AsyncFile(t);
      transaction := t;
      file := f;
      directory := new AsyncDirectory(f);
    }

    method BeginTransaction() returns (r: Outcome)
      modifies transaction
      ensures old(transaction.running) ==> r == Fail(InvalidOperation) && unchanged(transaction)
      ensures !old(transaction.running) ==> r == Pass && transaction.running && transaction.actions == old(transaction.actions)
    {
      r := transaction.BeginTransaction();
    }

    method Commit()
      modifies transaction
      ensures !transaction.running && transaction.actions == []
    {
      transaction.Commit();
    }

    method Rollback(disk: Disk) returns (ghost invoked: seq<UndoAction>)
      requires disk.Valid()
      modifies transaction, disk
      ensures disk.Valid()
      ensures invoked == RollbackOrder(old(transaction.actions))
      ensures disk.entries == Replay(old(disk.entries), invoked)
      ensures !transaction.running && transaction.actions == []
    {
      invoked := transaction.Rollback(disk);
    }
  }

  /**
   * Begin, write, roll back: the file written is gone, and so is its folder
   * with everything in it if the write created that folder.
   */
  method WriteAndRollback(path: Path, payload: seq<byte>, disk: Disk, now: Time) returns (r: Outcome, written: bool)
    requires disk.Valid()
    modifies disk
    ensures disk.Valid()
    ensures r.Pass? ==> written && !disk.FileExists(path)
    ensures r.Pass? && path != [] && Parent(path) !in old(disk.entries) ==>
              forall q :: q in disk.entries ==> !Under(q, Parent(path))
  {
    var io := new IO();
    var begun := io.BeginTransaction();
    ghost var f0 := disk.entries;
    r := io.file.Write(path, payload, disk, now);
    written := disk.FileExists(path);
    ghost var log := io.transaction.actions;
    if r.Pass? {
      assert log == [Some(Entry(path, now))];
      WriteThenRollbackRemovesTarget(f0, path, payload, now, log);
      if Parent(path) !in f0 {
        RollbackRemovesFolder(disk.entries, log, Entry(path, now));
      }
    }
    var _ := io.Rollback(disk);
  }

  /**
   * Two instances have two transactions: beginning one leaves the other idle,
   * and a write through an instance that was never begun registers nothing.
   */
  method IndependentInstances(path: Path, payload: seq<byte>, disk: Disk, now: Time)
    returns (first: Outcome, second: Outcome, idleUntouched: bool)
    requires disk.Valid()
    modifies disk
    ensures disk.Valid()
    ensures first == Pass && second == Pass && idleUntouched
  {
    var one := new IO();
    var two := new IO();
    first := one.BeginTransaction();
    var r := two.file.Write(path, payload, disk, now);
    idleUntouched := !two.transaction.running && two.transaction.actions == [];
    second := two.BeginTransaction();
  }

  /**
   * Begin, copy a file onto itself, roll back: `File.Copy` refuses, and the
   * undo action it registered spares the file, whose folder and last write
   * both predate the threshold. The disk is as before.
   */
  method SelfCopyAndRollback(p: Path, disk: Disk, now: Time) returns (r: Outcome)
    requires disk.Valid() && p != [] && IsFile(disk.entries, p) && disk.entries[p].lastWrite < now - Tolerance
    requires IsDir(disk.entries, Parent(p)) && disk.entries[Parent(p)].created < now - Tolerance
    modifies disk
    ensures disk.Valid()
    ensures r == Fail(IOFailure) && disk.entries == old(disk.entries)
  {
    var io := new IO();
    var begun := io.BeginTransaction();
    ghost var f0 := disk.entries;
    r := io.file.Copy(p, p, disk, now);
    SelfCopyIsRefused(f0, p, 0, now);
    FolderNotBlocked(f0, Parent(p));
    assert io.transaction.actions == [Some(Entry(p, now))];
    UndoSparesOldFile(f0, p, now);
    var invoked := io.Rollback(disk);
    assert invoked == [Entry(p, now)];
  }

  /** Begin, write, commit: the file keeps what was written and the transaction is idle again. */
  method WriteAndCommit(path: Path, payload: seq<byte>, disk: Disk, now: Time) returns (r: Outcome, idle: bool)
    requires disk.Valid()
    modifies disk
    ensures disk.Valid() && idle
    ensures r.Pass? ==> disk.FileExists(path) && disk.entries[path] == FileNode(payload, now)
  {
    var io := new IO();
    var begun := io.BeginTransaction();
    r := io.file.Write(path, payload, disk, now);
    io.Commit();
    idle := !io.transaction.running && io.transaction.actions == [];
  }

  /** Begin, copy a file, commit: the target holds the bytes of the source and the transaction is idle again. */
  method CopyAndCommit(src: Path, dst: Path, disk: Disk, now: Time) returns (r: Outcome, idle: bool)
    requires disk.Valid()
    modifies disk
    ensures disk.Valid() && idle
    ensures r.Pass? ==> IsFile(old(disk.entries), src) && disk.FileExists(dst) &&
                        disk.entries[dst].bytes == old(disk.entries)[src].bytes
  {
    var io := new IO();
    var begun := io.BeginTransaction();
    r := io.file.Copy(src, dst, disk, now);
    io.Commit();
    idle := !io.transaction.running && io.transaction.actions == [];
  }

  /**
   * Begin, copy a folder that holds a file into a target that does not
   * exist, roll back: the target was there after the copy, and nothing of
   * it is left.
   */
  method CopyDirectoryAndRollback(S: Path, T: Path, n: Name, disk: Disk, now: Time) returns (r: Outcome, copied: bool)
    requires disk.Valid() && Disjoint(S, T) && T !in disk.entries && IsFile(disk.entries, Combine(S, n))
    modifies disk
    ensures disk.Valid()
    ensures r.Pass? ==> copied && forall q :: q in disk.entries ==> !Under(q, T)
  {
    var io := new IO();
    var begun := io.BeginTransaction();
    ghost var f0 := disk.entries;
    ghost var added;
    r, added := io.directory.Copy(S, T, disk, now);
    copied := disk.DirectoryExists(T);
    ghost var f1 := disk.entries;
    ghost var log := io.transaction.actions;
    if r.Pass? {
      assert Rebase(S, S, T) == T;
      assert log == added;
      RollbackRemovesFreshTarget(f0, f1, S, T, Plain, now, added, log, n);
    }
    var _ := io.Rollback(disk);
  }

  /**
   * Begin, copy a folder tree that holds no file into a target that does not
   * exist, roll back: the tree copy registered nothing, so the copied
   * folders are all still there.
   */
  method CopyFilelessDirectoryAndRollback(S: Path, T: Path, disk: Disk, now: Time) returns (r: Outcome)
    requires disk.Valid() && Disjoint(S, T) && T !in disk.entries
    requires forall q :: q in disk.entries && Under(q, S) ==> disk.entries[q].DirNode?
    modifies disk
    ensures disk.Valid()
    ensures r.Pass? ==> disk.DirectoryExists(T) && Mirrors(old(disk.entries), disk.entries, S, T, Plain, now)
  {
    var io := new IO();
    var begun := io.BeginTransaction();
    ghost var f0 := disk.entries;
    ghost var added;
    r, added := io.directory.Copy(S, T, disk, now);
    FilelessTreeRegistersNothing(added, f0, S, T, now);
    assert io.transaction.actions == [];
    assert r.Pass? ==> Rebase(S, S, T) == T;
    var _ := io.Rollback(disk);
  }
}

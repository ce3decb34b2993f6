/**
 * `AsyncIO.Core.AsyncFile`: every write and copy first creates the folder of
 * its target, then registers an undo action on the shared transaction, then
 * mutates the filesystem. Serialisation to JSON, BSON, XML or CSV is outside
 * the model: the `Write*` methods take the encoded payload as bytes.
 *
 * Each method is proved against a function of the filesystem it starts from
 * (`WriteEffect`, `CopyEffect`, `CopyAsyncEffect`, `CopyBufferedEffect`), and
 * the lemmas below state what those functions, and rolling them back, do.
 */
module CoreFile {
  import opened Paths
  import opened Outcomes
  import opened FileSystem
  import opened Host
  import opened UndoLog
  import opened Transactions

  /**
   * `Directory.CreateDirectory(Path.GetDirectoryName(path))`. The root has no
   * folder: its name is null, and creating it throws.
   */
  function PrepareFolder(fs: Entries, path: Path, now: Time): (r: Step)
    ensures r.outcome.Pass? <==> path != [] && !Blocked(fs, Parent(path))
    ensures r.outcome.Fail? ==> r.fs == fs
    ensures r.outcome.Pass? ==> IsDir(r.fs, Parent(path))
    ensures forall q :: q in r.fs && q !in fs ==> r.fs[q].DirNode? && Under(Parent(path), q)
    ensures forall q :: q in fs ==> q in r.fs && r.fs[q] == fs[q]
    ensures path in r.fs <==> path in fs
    ensures Extends(fs, r.fs, path, now, false)
    ensures WellFormed(fs) ==> WellFormed(r.fs)
    ensures WellFormed(fs) && path != [] && path in fs ==> r == Step(fs, Pass)
  {
    if path == [] then Step(fs, Fail(ArgumentNull))
    else
      var r := CreateDirectory(fs, Parent(path), now);
      ExtendsNarrow(fs, r.fs, Parent(path), path, now);
      assert r.outcome.Pass? ==> IsDir(r.fs, Parent(path)) by {
        if r.outcome.Pass? {
          assert Parent(path)[..|Parent(path)|] == Parent(path);
        }
      }
      assert WellFormed(fs) && path in fs ==> r == Step(fs, Pass) by {
        if WellFormed(fs) && path in fs {
          CreateExistingDirectory(fs, Parent(path), now);
        }
      }
      r
  }

  /** The undo entry a write or copy of `path` pushes: one when running and once its folder exists. */
  function Pushed(running: bool, fs: Entries, path: Path, now: Time): seq<Option<UndoAction>>
  {
    if running && path != [] && !Blocked(fs, Parent(path)) then [Some(Entry(path, now))] else []
  }

  /** `WriteJson`, `WriteBson`, `WriteXml`, `WriteCsv` and their `Async` forms: overwrite or create. */
  function WriteEffect(fs: Entries, path: Path, data: seq<byte>, now: Time): (r: Step)
    ensures r.outcome.Pass? <==> path != [] && !Blocked(fs, Parent(path)) && !IsDir(fs, path)
    ensures r.outcome.Pass? ==> path in r.fs && r.fs[path] == FileNode(data, now) && IsDir(r.fs, Parent(path))
    ensures r.outcome.Fail? && WellFormed(fs) ==> r.fs == fs
    ensures Extends(fs, r.fs, path, now, true)
    ensures forall q :: q in r.fs && q !in fs ==> Under(path, q)
    ensures WellFormed(fs) ==> WellFormed(r.fs)
  {
    var prepared := PrepareFolder(fs, path, now);
    if prepared.outcome.Fail? then prepared
    else
      assert WellFormed(fs) && IsDir(fs, path) ==> prepared.fs == fs;
      assert IsDir(prepared.fs, path) == IsDir(fs, path);
      ExtendsRewriting(fs, prepared.fs, path, now);
      assert !IsDir(fs, path) ==> Extends(fs, prepared.fs[path := FileNode(data, now)], path, now, true) by {
        if !IsDir(fs, path) {
          ExtendsPut(fs, prepared.fs, path, FileNode(data, now), now, true);
        }
      }
      FileSystem.WriteAllBytes(prepared.fs, path, data, now)
  }

  /** `Copy(source, target)`: `File.Copy`, which refuses an existing target and keeps the source's time. */
  function CopyEffect(fs: Entries, src: Path, dst: Path, now: Time): (r: Step)
    ensures r.outcome.Pass? <==> dst != [] && !Blocked(fs, Parent(dst)) && IsFile(fs, src) && dst !in fs
    ensures r.outcome.Pass? ==> dst in r.fs && r.fs[dst] == fs[src] && IsDir(r.fs, Parent(dst))
    ensures r.outcome.Fail? && WellFormed(fs) && dst in fs ==> r.fs == fs
    ensures Extends(fs, r.fs, dst, now, false)
    ensures forall q :: q in r.fs && q !in fs ==> Under(dst, q)
    ensures WellFormed(fs) ==> WellFormed(r.fs)
  {
    var prepared := PrepareFolder(fs, dst, now);
    if prepared.outcome.Fail? then prepared
    else
      assert IsFile(prepared.fs, src) <==> IsFile(fs, src);
      assert IsFile(fs, src) && dst !in fs ==> Extends(fs, prepared.fs[dst := fs[src]], dst, now, false) by {
        if IsFile(fs, src) && dst !in fs {
          ExtendsPut(fs, prepared.fs, dst, fs[src], now, false);
        }
      }
      CopyFile(prepared.fs, src, dst)
  }

  /** `CopyAsync(source, target)`: reads the whole source and writes it over the target. */
  function CopyAsyncEffect(fs: Entries, src: Path, dst: Path, now: Time): (r: Step)
    ensures r.outcome.Pass? <==> dst != [] && !Blocked(fs, Parent(dst)) && IsFile(fs, src) && !IsDir(fs, dst)
    ensures r.outcome.Pass? ==> dst in r.fs && r.fs[dst] == FileNode(fs[src].bytes, now) && IsDir(r.fs, Parent(dst))
    ensures Extends(fs, r.fs, dst, now, true)
    ensures forall q :: q in fs && q != dst ==> q in r.fs && r.fs[q] == fs[q]
    ensures forall q :: q in r.fs && q !in fs ==> Under(dst, q)
    ensures WellFormed(fs) ==> WellFormed(r.fs)
  {
    var prepared := PrepareFolder(fs, dst, now);
    if prepared.outcome.Fail? then prepared
    else
      assert IsFile(prepared.fs, src) <==> IsFile(fs, src);
      assert IsDir(prepared.fs, dst) == IsDir(fs, dst);
      ExtendsRewriting(fs, prepared.fs, dst, now);
      match FileSystem.ReadAllBytes(prepared.fs, src)
      case Failure(e) => Step(prepared.fs, Fail(e))
      case Success(data) =>
        assert !IsDir(fs, dst) ==> Extends(fs, prepared.fs[dst := FileNode(data, now)], dst, now, true) by {
          if !IsDir(fs, dst) {
            ExtendsPut(fs, prepared.fs, dst, FileNode(data, now), now, true);
          }
        }
        FileSystem.WriteAllBytes(prepared.fs, dst, data, now)
  }

  /** `FileStream.Read(buffer, 0, count)` with `remaining` bytes left: never more than either. */
  function ReadCount(remaining: nat, count: nat): nat
  {
    if count < remaining then count else remaining
  }

  /**
   * What the buffered loop writes: chunks of `bufferLength` bytes read from
   * `data` until a read returns nothing.
   */
  function Transfer(data: seq<byte>, bufferLength: nat): seq<byte>
    decreases |data|
  {
    var count := ReadCount(|data|, bufferLength);
    if count == 0 then [] else data[..count] + Transfer(data[count..], bufferLength)
  }

  /** One turn of the loop: the next read, then what is left to transfer. */
  lemma TransferStep(data: seq<byte>, pos: nat, bufferLength: nat)
    requires pos <= |data|
    ensures var count := ReadCount(|data| - pos, bufferLength);
      Transfer(data[pos..], bufferLength) ==
        if count == 0 then [] else data[pos..pos + count] + Transfer(data[pos + count..], bufferLength)
  {
    var count := ReadCount(|data| - pos, bufferLength);
    assert data[pos..][..count] == data[pos..pos + count];
    assert data[pos..][count..] == data[pos + count..];
  }

  lemma BytesJoin(data: seq<byte>, i: nat, j: nat)
    requires i <= j <= |data|
    ensures data[..i] + data[i..j] == data[..j]
  {
  }

  lemma BytesAssoc(a: seq<byte>, b: seq<byte>, c: seq<byte>)
    ensures a + (b + c) == a + b + c
  {
  }

  /** The loop keeps "written so far, then what is left" equal to the whole transfer. */
  lemma TransferAdvance(data: seq<byte>, pos: nat, bufferLength: nat)
    requires pos <= |data| && ReadCount(|data| - pos, bufferLength) != 0
    requires data[..pos] + Transfer(data[pos..], bufferLength) == Transfer(data, bufferLength)
    ensures var next := pos + ReadCount(|data| - pos, bufferLength);
      next <= |data| && data[..next] + Transfer(data[next..], bufferLength) == Transfer(data, bufferLength)
  {
    var next := pos + ReadCount(|data| - pos, bufferLength);
    var chunk, rest := data[pos..next], Transfer(data[next..], bufferLength);
    TransferStep(data, pos, bufferLength);
    BytesJoin(data, pos, next);
    BytesAssoc(data[..pos], chunk, rest);
  }

  /** A positive buffer copies every byte, in order; an empty one copies nothing. */
  lemma {:induction false} TransferReproducesSource(data: seq<byte>, bufferLength: nat)
    ensures bufferLength > 0 ==> Transfer(data, bufferLength) == data
    ensures bufferLength == 0 ==> Transfer(data, bufferLength) == []
    decreases |data|
  {
    var count := ReadCount(|data|, bufferLength);
    if count != 0 {
      TransferReproducesSource(data[count..], bufferLength);
      assert data[..count] + data[count..] == data;
    }
  }

  /**
   * `Copy(source, target, bufferLength)` and its `Async` form: opens the
   * source, creates the target with `FileMode.CreateNew`, allocates the
   * buffer, then runs the loop.
   */
  function CopyBufferedEffect(fs: Entries, src: Path, dst: Path, bufferLength: int, now: Time): (r: Step)
    ensures r.outcome.Pass? <==>
              dst != [] && !Blocked(fs, Parent(dst)) && IsFile(fs, src) && dst !in fs && bufferLength >= 0
    ensures r.outcome.Pass? ==>
              dst in r.fs && r.fs[dst] == FileNode(Transfer(fs[src].bytes, bufferLength), now) && IsDir(r.fs, Parent(dst))
    ensures dst != [] && !Blocked(fs, Parent(dst)) && IsFile(fs, src) && dst !in fs && bufferLength < 0 ==>
              r.outcome == Fail(Overflow) && dst in r.fs && r.fs[dst] == FileNode([], now)
    ensures r.outcome.Fail? && WellFormed(fs) && dst in fs ==> r.fs == fs
    ensures Extends(fs, r.fs, dst, now, false)
    ensures forall q :: q in r.fs && q !in fs ==> Under(dst, q)
    ensures WellFormed(fs) ==> WellFormed(r.fs)
  {
    var prepared := PrepareFolder(fs, dst, now);
    if prepared.outcome.Fail? then prepared
    else
      assert IsFile(prepared.fs, src) <==> IsFile(fs, src);
      match FileSystem.ReadAllBytes(prepared.fs, src)
      case Failure(e) => Step(prepared.fs, Fail(e))
      case Success(data) =>
        var created := CreateNew(prepared.fs, dst, now);
        if created.outcome.Fail? then created
        else
          ExtendsPut(fs, prepared.fs, dst, FileNode([], now), now, false);
          if bufferLength < 0 then Step(created.fs, Fail(Overflow))
          else
            ExtendsPut(fs, created.fs, dst, FileNode(Transfer(data, bufferLength), now), now, false);
            Step(created.fs[dst := FileNode(Transfer(data, bufferLength), now)], Pass)
  }

  /** The file operations of one `IO` instance, sharing its transaction. */
  class AsyncFile {
    const transaction: Transaction

    constructor (transaction: Transaction)
      ensures this.transaction == transaction
    {
      this.transaction := transaction;
    }

    /**
     * Pushes the undo action for `path` if the transaction is running. Callers
     * reach it only after creating the folder of `path`, so `path` is not the root.
     */
    method HandleTransaction(path: Path, now: Time)
      requires path != []
      modifies transaction
      ensures transaction.running == old(transaction.running)
      ensures old(transaction.running) ==> transaction.actions == old(transaction.actions) + [Some(Entry(path, now))]
      ensures !old(transaction.running) ==> transaction.actions == old(transaction.actions)
    {
      if transaction.running {
        transaction.actions := transaction.actions + [Some(UndoAction(path, Parent(path), now - Tolerance))];
      }
    }

    /** The encoded writes, given the encoded payload. */
    method Write(path: Path, payload: seq<byte>, disk: Disk, now: Time) returns (r: Outcome)
      requires disk.Valid()
      modifies disk, transaction
      ensures disk.Valid()
      ensures Step(disk.entries, r) == WriteEffect(old(disk.entries), path, payload, now)
      ensures transaction.running == old(transaction.running)
      ensures transaction.actions ==
                old(transaction.actions) + Pushed(old(transaction.running), old(disk.entries), path, now)
    {
      if path == [] {
        return Fail(ArgumentNull);
      }
      r := disk.CreateDirectory(Parent(path), now);
      if r.Fail? {
        return;
      }
      HandleTransaction(path, now);
      r := disk.WriteAllBytes(path, payload, now);
    }

    method Copy(src: Path, dst: Path, disk: Disk, now: Time) returns (r: Outcome)
      requires disk.Valid()
      modifies disk, transaction
      ensures disk.Valid()
      ensures Step(disk.entries, r) == CopyEffect(old(disk.entries), src, dst, now)
      ensures transaction.running == old(transaction.running)
      ensures transaction.actions ==
                old(transaction.actions) + Pushed(old(transaction.running), old(disk.entries), dst, now)
    {
      if dst == [] {
        return Fail(ArgumentNull);
      }
      r := disk.CreateDirectory(Parent(dst), now);
      if r.Fail? {
        return;
      }
      HandleTransaction(dst, now);
      r := disk.Copy(src, dst);
    }

    method CopyAsync(src: Path, dst: Path, disk: Disk, now: Time) returns (r: Outcome)
      requires disk.Valid()
      modifies disk, transaction
      ensures disk.Valid()
      ensures Step(disk.entries, r) == CopyAsyncEffect(old(disk.entries), src, dst, now)
      ensures transaction.running == old(transaction.running)
      ensures transaction.actions ==
                old(transaction.actions) + Pushed(old(transaction.running), old(disk.entries), dst, now)
    {
      if dst == [] {
        return Fail(ArgumentNull);
      }
      r := disk.CreateDirectory(Parent(dst), now);
      if r.Fail? {
        return;
      }
      HandleTransaction(dst, now);
      var read := disk.ReadAllBytes(src);
      if read.Failure? {
        return Fail(read.error);
      }
      r := disk.WriteAllBytes(dst, read.value, now);
    }

    /** The buffered copy; `CopyAsync(source, target, bufferLength)` has the same effect. */
    method CopyBuffered(src: Path, dst: Path, bufferLength: int, disk: Disk, now: Time) returns (r: Outcome)
      requires disk.Valid()
      modifies disk, transaction
      ensures disk.Valid()
      ensures Step(disk.entries, r) == CopyBufferedEffect(old(disk.entries), src, dst, bufferLength, now)
      ensures transaction.running == old(transaction.running)
      ensures transaction.actions ==
                old(transaction.actions) + Pushed(old(transaction.running), old(disk.entries), dst, now)
    {
      if dst == [] {
        return Fail(ArgumentNull);
      }
      r := disk.CreateDirectory(Parent(dst), now);
      if r.Fail? {
        return;
      }
      HandleTransaction(dst, now);
      var source := disk.ReadAllBytes(src);
      if source.Failure? {
        return Fail(source.error);
      }
      r := disk.CreateNew(dst, now);
      if r.Fail? {
        return;
      }
      if bufferLength < 0 {
        return Fail(Overflow);
      }
      CopyLoop(source.value, dst, bufferLength, disk, now);
      r := Pass;
    }

    /**
     * The loop of the buffered copy: reads up to `bufferLength` bytes from the
     * opened source `data` and appends them to `dst` until a read returns 0.
     */
    method CopyLoop(data: seq<byte>, dst: Path, bufferLength: nat, disk: Disk, now: Time)
      requires disk.Valid() && disk.FileExists(dst) && disk.entries[dst] == FileNode([], now)
      modifies disk
      ensures disk.Valid()
      ensures disk.entries == old(disk.entries)[dst := FileNode(Transfer(data, bufferLength), now)]
    {
      ghost var created := disk.entries;
      var pos := 0;
      var readCount := ReadCount(|data|, bufferLength);
      while readCount != 0
        invariant disk.Valid() && dst in disk.entries
        invariant 0 <= pos <= |data| && readCount == ReadCount(|data| - pos, bufferLength)
        invariant disk.entries == created[dst := FileNode(data[..pos], now)]
        invariant data[..pos] + Transfer(data[pos..], bufferLength) == Transfer(data, bufferLength)
        decreases |data| - pos
      {
        TransferAdvance(data, pos, bufferLength);
        disk.Append(dst, data[pos..pos + readCount], now);
        assert data[..pos] + data[pos..pos + readCount] == data[..pos + readCount];
        pos := pos + readCount;
        readCount := ReadCount(|data| - pos, bufferLength);
      }
      TransferStep(data, pos, bufferLength);
      assert data[..pos] + [] == data[..pos];
    }
  }

  /** A write registers the undo action that, on rollback, removes what it wrote. */
  lemma WriteThenRollbackRemovesTarget(fs: Entries, path: Path, data: seq<byte>, now: Time, log: seq<Option<UndoAction>>)
    requires WellFormed(fs) && WriteEffect(fs, path, data, now).outcome.Pass?
    requires Some(Entry(path, now)) in log
    ensures path !in Replay(WriteEffect(fs, path, data, now).fs, RollbackOrder(log))
  {
    RollbackRemovesPath(WriteEffect(fs, path, data, now).fs, log, Entry(path, now));
  }

  /** Writing a new file into a folder older than the threshold, then undoing, restores the tree exactly. */
  lemma WriteThenUndoRestores(fs: Entries, path: Path, data: seq<byte>, now: Time)
    requires WellFormed(fs) && path != [] && path !in fs
    requires IsDir(fs, Parent(path)) && fs[Parent(path)].created < now - Tolerance
    ensures UndoEffect(WriteEffect(fs, path, data, now).fs, Entry(path, now)) == fs
  {
    var prepared := PrepareFolder(fs, path, now);
    CreateExistingDirectory(fs, Parent(path), now);
    assert prepared.fs == fs;
    assert WriteEffect(fs, path, data, now).fs == fs[path := FileNode(data, now)];
    assert fs[path := FileNode(data, now)] - {path} == fs;
  }

  /**
   * Undoing a write over an existing file deletes the file: its earlier
   * content is not restored.
   */
  lemma OverwrittenFileIsLostOnUndo(fs: Entries, path: Path, data: seq<byte>, now: Time)
    requires WellFormed(fs) && path != [] && IsFile(fs, path)
    ensures WriteEffect(fs, path, data, now).outcome.Pass?
    ensures path !in UndoEffect(WriteEffect(fs, path, data, now).fs, Entry(path, now))
  {
    FolderNotBlocked(fs, Parent(path));
    UndoRemovesPath(WriteEffect(fs, path, data, now).fs, Entry(path, now));
  }

  /**
   * A folder created within the tolerance before a write is deleted whole on
   * undo, with every entry it held before the write.
   */
  lemma RecentFolderIsDeletedWhole(fs: Entries, path: Path, data: seq<byte>, now: Time)
    requires WellFormed(fs) && path != [] && !IsDir(fs, path)
    requires IsDir(fs, Parent(path)) && fs[Parent(path)].created >= now - Tolerance
    ensures forall q :: Under(q, Parent(path)) ==> q !in UndoEffect(WriteEffect(fs, path, data, now).fs, Entry(path, now))
  {
    CreateExistingDirectory(fs, Parent(path), now);
  }

  /**
   * Undo removes at most the folder directly holding the path: a folder
   * further up that the write created is left in place.
   */
  lemma NewGrandparentSurvivesUndo(fs: Entries, path: Path, data: seq<byte>, now: Time)
    requires WellFormed(fs) && |path| >= 2 && Parent(Parent(path)) !in fs
    requires WriteEffect(fs, path, data, now).outcome.Pass?
    ensures IsDir(WriteEffect(fs, path, data, now).fs, Parent(Parent(path)))
    ensures Parent(Parent(path)) in UndoEffect(WriteEffect(fs, path, data, now).fs, Entry(path, now))
  {
    var r := WriteEffect(fs, path, data, now);
    assert Parent(path) in r.fs && Parent(path) != [];
    assert !Under(Parent(Parent(path)), Parent(path));
  }

  /** Copying a file onto itself with `File.Copy` or the buffered copy fails and changes nothing. */
  lemma SelfCopyIsRefused(fs: Entries, p: Path, bufferLength: int, now: Time)
    requires WellFormed(fs) && p != [] && IsFile(fs, p)
    ensures CopyEffect(fs, p, p, now) == Step(fs, Fail(IOFailure))
    ensures CopyBufferedEffect(fs, p, p, bufferLength, now) == Step(fs, Fail(IOFailure))
  {
  }

  /** Undo spares a file whose folder and last write both predate the threshold. */
  lemma UndoSparesOldFile(fs: Entries, p: Path, now: Time)
    requires p != [] && IsDir(fs, Parent(p)) && fs[Parent(p)].created < now - Tolerance
    requires p in fs ==> IsFile(fs, p) && fs[p].lastWrite < now - Tolerance
    ensures UndoEffect(fs, Entry(p, now)) == fs
  {
  }

  /**
   * The whole-file `CopyAsync` of a file onto itself succeeds and restamps it,
   * so undoing it deletes the file.
   */
  lemma SelfCopyAsyncIsLostOnUndo(fs: Entries, p: Path, now: Time)
    requires WellFormed(fs) && p != [] && IsFile(fs, p)
    ensures CopyAsyncEffect(fs, p, p, now).outcome.Pass?
    ensures CopyAsyncEffect(fs, p, p, now).fs[p] == FileNode(fs[p].bytes, now)
    ensures p !in UndoEffect(CopyAsyncEffect(fs, p, p, now).fs, Entry(p, now))
  {
    var r := CopyAsyncEffect(fs, p, p, now);
    CreateExistingDirectory(fs, Parent(p), now);
    UndoRemovesPath(r.fs, Entry(p, now));
  }

  /**
   * Undoing a successful `File.Copy` removes the target exactly when its
   * folder was created within the tolerance, or the source it kept the time
   * of was written within it.
   */
  lemma CopyUndoRemovesTargetIff(fs: Entries, src: Path, dst: Path, now: Time)
    requires WellFormed(fs) && CopyEffect(fs, src, dst, now).outcome.Pass?
    ensures dst !in UndoEffect(CopyEffect(fs, src, dst, now).fs, Entry(dst, now)) <==>
              || !IsDir(fs, Parent(dst))
              || fs[Parent(dst)].created >= now - Tolerance
              || fs[src].lastWrite >= now - Tolerance
  {
    var r := CopyEffect(fs, src, dst, now);
    assert IsDir(fs, Parent(dst)) ==> r.fs[Parent(dst)] == fs[Parent(dst)];
    assert !IsDir(fs, Parent(dst)) ==> r.fs[Parent(dst)].created == now;
  }

  /**
   * The buffered copy refuses an existing target; the undo action it has
   * already registered still deletes that target if it was written within
   * the tolerance.
   */
  lemma FailedBufferedCopyStillUndoes(fs: Entries, src: Path, dst: Path, bufferLength: int, now: Time)
    requires WellFormed(fs) && IsFile(fs, src) && dst != [] && IsFile(fs, dst)
    requires fs[dst].lastWrite >= now - Tolerance
    ensures CopyBufferedEffect(fs, src, dst, bufferLength, now) == Step(fs, Fail(IOFailure))
    ensures Pushed(true, fs, dst, now) == [Some(Entry(dst, now))]
    ensures dst !in UndoEffect(fs, Entry(dst, now))
  {
    FolderNotBlocked(fs, Parent(dst));
  }
}

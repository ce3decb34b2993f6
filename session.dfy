/**
 * A sequence of file operations made through one `IO` inside a transaction,
 * and what `Commit` and `Rollback` then leave. Each call is one of the
 * transactional writes or copies of `AsyncIO.Core.AsyncFile`, made at its own
 * clock reading; the calls run one after the other.
 */
module Sessions {
  import opened Paths
  import opened Outcomes
  import opened FileSystem
  import opened Host
  import opened UndoLog
  import opened Transactions
  import opened CoreFile
  import opened CoreIO

  datatype Operation =
    | WriteOp(path: Path, data: seq<byte>)                         // `WriteJson` and the other encoded writes
    | CopyOp(src: Path, dst: Path)                                 // `Copy(source, target)`
    | CopyAsyncOp(src: Path, dst: Path)                            // `CopyAsync(source, target)`
    | CopyBufferedOp(src: Path, dst: Path, bufferLength: int)      // `Copy` / `CopyAsync` with a buffer length

  datatype Call = Call(op: Operation, now: Time)

  /** The path the operation writes, and registers its undo action for. */
  function Target(op: Operation): Path {
    match op
    case WriteOp(path, _) => path
    case CopyOp(_, dst) => dst
    case CopyAsyncOp(_, dst) => dst
    case CopyBufferedOp(_, dst, _) => dst
  }

  /** Every operation but `File.Copy` stamps the file it writes with the current time. */
  predicate Restamps(op: Operation) {
    !op.CopyOp?
  }

  /** What one call does to the disk. */
  function Effect(fs: Entries, c: Call): (r: Step)
    ensures r.outcome.Pass? ==>
              Target(c.op) != [] && !Blocked(fs, Parent(Target(c.op))) &&
              Target(c.op) in r.fs && IsDir(r.fs, Parent(Target(c.op)))
    ensures r.outcome.Pass? && Restamps(c.op) ==> IsFile(r.fs, Target(c.op)) && r.fs[Target(c.op)].lastWrite == c.now
  {
    match c.op
    case WriteOp(path, data) => WriteEffect(fs, path, data, c.now)
    case CopyOp(src, dst) => CopyEffect(fs, src, dst, c.now)
    case CopyAsyncOp(src, dst) => CopyAsyncEffect(fs, src, dst, c.now)
    case CopyBufferedOp(src, dst, n) => CopyBufferedEffect(fs, src, dst, n, c.now)
  }

  /** A call changes only what lies on the way to its path or beneath it. */
  lemma EffectExtends(fs: Entries, c: Call)
    ensures Extends(fs, Effect(fs, c).fs, Target(c.op), c.now, c.op.WriteOp? || c.op.CopyAsyncOp?)
  {
  }

  lemma EffectWellFormed(fs: Entries, c: Call)
    requires WellFormed(fs)
    ensures WellFormed(Effect(fs, c).fs)
  {
  }

  /** A call adds entries only on the way to its path. */
  lemma EffectAddsOnTheWay(fs: Entries, c: Call, d: Path)
    requires d !in fs && !Under(Target(c.op), d)
    ensures d !in Effect(fs, c).fs
  {
  }

  /** The disk after the calls, first to last. */
  function Run(fs: Entries, calls: seq<Call>): Entries
    decreases |calls|
  {
    if calls == [] then fs
    else Effect(Run(fs, calls[..|calls| - 1]), calls[|calls| - 1]).fs
  }

  /** What the calls push on the stack of a running transaction, bottom first. */
  function Log(fs: Entries, calls: seq<Call>): seq<Option<UndoAction>>
    decreases |calls|
  {
    if calls == [] then []
    else
      var last := calls[|calls| - 1];
      Log(fs, calls[..|calls| - 1]) + Pushed(true, Run(fs, calls[..|calls| - 1]), Target(last.op), last.now)
  }

  /** Whether each call threw, first to last. */
  function Results(fs: Entries, calls: seq<Call>): seq<Outcome>
    decreases |calls|
  {
    if calls == [] then []
    else Results(fs, calls[..|calls| - 1]) + [Effect(Run(fs, calls[..|calls| - 1]), calls[|calls| - 1]).outcome]
  }

  /** The clock never runs backwards from one call to the next. */
  predicate Ordered(calls: seq<Call>) {
    forall i, j :: 0 <= i < j < |calls| ==> calls[i].now <= calls[j].now
  }

  /** The `i`th call did not throw. */
  predicate Succeeded(fs: Entries, calls: seq<Call>, i: nat)
    requires i < |calls|
  {
    Effect(Run(fs, calls[..i]), calls[i]).outcome.Pass?
  }

  /** Running one more call. */
  lemma RunSnoc(fs: Entries, calls: seq<Call>, i: nat)
    requires i < |calls|
    ensures Run(fs, calls[..i + 1]) == Effect(Run(fs, calls[..i]), calls[i]).fs
    ensures Log(fs, calls[..i + 1]) ==
              Log(fs, calls[..i]) + Pushed(true, Run(fs, calls[..i]), Target(calls[i].op), calls[i].now)
    ensures Results(fs, calls[..i + 1]) == Results(fs, calls[..i]) + [Effect(Run(fs, calls[..i]), calls[i]).outcome]
  {
    assert calls[..i + 1][..i] == calls[..i];
  }

  lemma RunStart(fs: Entries, calls: seq<Call>)
    ensures Run(fs, calls[..0]) == fs && Log(fs, calls[..0]) == [] && Results(fs, calls[..0]) == []
  {
    assert calls[..0] == [];
  }

  /** The `i`th outcome is whether the `i`th call, made on the disk the earlier calls left, succeeded. */
  lemma {:induction false} ResultsAt(fs: Entries, calls: seq<Call>)
    ensures |Results(fs, calls)| == |calls|
    ensures forall i :: 0 <= i < |calls| ==> (Results(fs, calls)[i].Pass? <==> Succeeded(fs, calls, i))
    decreases |calls|
  {
    if calls != [] {
      var init := calls[..|calls| - 1];
      ResultsAt(fs, init);
      forall i | 0 <= i < |calls| ensures Results(fs, calls)[i].Pass? <==> Succeeded(fs, calls, i) {
        if i < |init| {
          assert init[..i] == calls[..i];
        } else {
          assert init == calls[..i];
        }
      }
    }
  }

  lemma {:induction false} RunWellFormed(fs: Entries, calls: seq<Call>)
    requires WellFormed(fs)
    ensures WellFormed(Run(fs, calls))
    decreases |calls|
  {
    if calls != [] {
      RunWellFormed(fs, calls[..|calls| - 1]);
      EffectWellFormed(Run(fs, calls[..|calls| - 1]), calls[|calls| - 1]);
    }
  }

  /**
   * Later calls, made no earlier than an action's threshold, keep a path that
   * the action dooms doomed, and keep it there.
   */
  lemma {:induction false} RunKeepsDoomed(fs: Entries, calls: seq<Call>, k: nat, a: UndoAction)
    requires k <= |calls| && a.path in Run(fs, calls[..k]) && Doomed(Run(fs, calls[..k]), a)
    requires forall j :: k <= j < |calls| ==> calls[j].now >= a.start
    ensures a.path in Run(fs, calls) && Doomed(Run(fs, calls), a)
    decreases |calls|
  {
    if |calls| == k {
      assert calls[..k] == calls;
    } else {
      var init := calls[..|calls| - 1];
      assert init[..k] == calls[..k];
      RunKeepsDoomed(fs, init, k, a);
      var last := calls[|calls| - 1];
      EffectExtends(Run(fs, init), last);
      ExtendsKeepsDoomed(Run(fs, init), Run(fs, calls), a, Target(last.op), last.now, last.op.WriteOp? || last.op.CopyAsyncOp?);
    }
  }

  /** Likewise for a folder created no earlier than an action's threshold. */
  lemma {:induction false} RunKeepsFolderDoomed(fs: Entries, calls: seq<Call>, k: nat, a: UndoAction)
    requires k <= |calls| && a.folder in Run(fs, calls[..k]) && FolderDoomed(Run(fs, calls[..k]), a)
    ensures a.folder in Run(fs, calls) && FolderDoomed(Run(fs, calls), a)
    decreases |calls|
  {
    if |calls| == k {
      assert calls[..k] == calls;
    } else {
      var init := calls[..|calls| - 1];
      assert init[..k] == calls[..k];
      RunKeepsFolderDoomed(fs, init, k, a);
      var last := calls[|calls| - 1];
      EffectExtends(Run(fs, init), last);
      ExtendsKeepsFolderDoomed(Run(fs, init), Run(fs, calls), a, Target(last.op), last.now, last.op.WriteOp? || last.op.CopyAsyncOp?);
    }
  }

  /** Later calls never remove an entry. */
  lemma {:induction false} RunKeeps(fs: Entries, calls: seq<Call>, k: nat, p: Path)
    requires k <= |calls| && p in Run(fs, calls[..k])
    ensures p in Run(fs, calls)
    decreases |calls|
  {
    if |calls| == k {
      assert calls[..k] == calls;
    } else {
      var init := calls[..|calls| - 1];
      assert init[..k] == calls[..k];
      RunKeeps(fs, init, k, p);
      EffectExtends(Run(fs, init), calls[|calls| - 1]);
    }
  }

  /** The stack only grows: what the first `k` calls pushed is still on it. */
  lemma {:induction false} LogKeeps(fs: Entries, calls: seq<Call>, k: nat, x: Option<UndoAction>)
    requires k <= |calls| && x in Log(fs, calls[..k])
    ensures x in Log(fs, calls)
    decreases |calls|
  {
    if |calls| == k {
      assert calls[..k] == calls;
    } else {
      var init := calls[..|calls| - 1];
      assert init[..k] == calls[..k];
      LogKeeps(fs, init, k, x);
    }
  }

  /**
   * A call that succeeded registered an undo action that, after all the later
   * calls, still dooms the path it wrote, unless the call was a `File.Copy`,
   * which keeps the source's time; and it dooms the folder of that path if
   * the call created the folder.
   */
  lemma CallDooms(fs: Entries, calls: seq<Call>, i: nat)
    requires Ordered(calls) && i < |calls| && Succeeded(fs, calls, i)
    ensures Target(calls[i].op) != [] && Some(Entry(Target(calls[i].op), calls[i].now)) in Log(fs, calls)
    ensures Restamps(calls[i].op) ==> Doomed(Run(fs, calls), Entry(Target(calls[i].op), calls[i].now))
    ensures Parent(Target(calls[i].op)) !in Run(fs, calls[..i]) ==>
              FolderDoomed(Run(fs, calls), Entry(Target(calls[i].op), calls[i].now))
  {
    var c := calls[i];
    var p := Target(c.op);
    var before := Run(fs, calls[..i]);
    var after := Effect(before, c).fs;
    var a := Entry(p, c.now);
    RunSnoc(fs, calls, i);
    EffectExtends(before, c);
    assert Some(a) in Log(fs, calls[..i + 1]);
    LogKeeps(fs, calls, i + 1, Some(a));
    if Restamps(c.op) {
      assert calls[i].now >= a.start;
      RunKeepsDoomed(fs, calls, i + 1, a);
    }
    if Parent(p) !in before {
      RunKeepsFolderDoomed(fs, calls, i + 1, a);
    }
  }

  /**
   * Rolling back after a sequence of calls: the path of every call that
   * succeeded and stamped its file is gone, and so is everything in a folder
   * that such a call created.
   */
  lemma RollbackUndoesSession(fs: Entries, calls: seq<Call>, i: nat)
    requires WellFormed(fs) && Ordered(calls) && i < |calls| && Succeeded(fs, calls, i)
    ensures Restamps(calls[i].op) ==> Target(calls[i].op) !in Replay(Run(fs, calls), RollbackOrder(Log(fs, calls)))
    ensures Parent(Target(calls[i].op)) !in Run(fs, calls[..i]) ==>
              forall q :: q in Replay(Run(fs, calls), RollbackOrder(Log(fs, calls))) ==> !Under(q, Parent(Target(calls[i].op)))
  {
    var a := Entry(Target(calls[i].op), calls[i].now);
    CallDooms(fs, calls, i);
    RunWellFormed(fs, calls);
    if Restamps(calls[i].op) {
      RollbackRemovesPath(Run(fs, calls), Log(fs, calls), a);
    }
    if Parent(Target(calls[i].op)) !in Run(fs, calls[..i]) {
      RollbackRemovesFolder(Run(fs, calls), Log(fs, calls), a);
    }
  }

  /** The entries the calls push when none of them throws, bottom first. */
  function Pushes(calls: seq<Call>): seq<Option<UndoAction>>
    decreases |calls|
  {
    if calls == [] then []
    else
      var c := calls[|calls| - 1];
      Pushes(calls[..|calls| - 1]) + [if Target(c.op) != [] then Some(Entry(Target(c.op), c.now)) else None]
  }

  /** When every call succeeded, each pushed its entry. */
  lemma {:induction false} LogOfSucceeded(fs: Entries, calls: seq<Call>)
    requires forall i :: 0 <= i < |calls| ==> Succeeded(fs, calls, i)
    ensures Log(fs, calls) == Pushes(calls)
    decreases |calls|
  {
    if calls != [] {
      var n := |calls| - 1;
      var init := calls[..n];
      forall i | 0 <= i < |init| ensures Succeeded(fs, init, i) {
        SucceededPrefix(fs, calls, n, i);
      }
      LogOfSucceeded(fs, init);
      var e := LogSnocSucceeded(fs, calls);
    }
  }

  /** Rollback meets the pushed entries newest first. */
  lemma {:induction false} RollbackOrderOfPushes(calls: seq<Call>)
    requires forall i :: 0 <= i < |calls| ==> Target(calls[i].op) != []
    ensures |RollbackOrder(Pushes(calls))| == |calls|
    ensures forall k :: 0 <= k < |calls| ==>
              var c := calls[|calls| - 1 - k];
              Target(c.op) != [] && RollbackOrder(Pushes(calls))[k] == Entry(Target(c.op), c.now)
    decreases |calls|
  {
    if calls != [] {
      var n := |calls| - 1;
      var init, c := calls[..n], calls[n];
      RollbackOrderOfPushes(init);
      var e := Entry(Target(c.op), c.now);
      RollbackOrderSnoc(Pushes(init), e);
      var order := RollbackOrder(Pushes(calls));
      forall k | 0 <= k < |calls|
        ensures var c := calls[|calls| - 1 - k]; Target(c.op) != [] && order[k] == Entry(Target(c.op), c.now)
      {
        if k > 0 {
          assert order[k] == RollbackOrder(Pushes(init))[k - 1];
          assert calls[|calls| - 1 - k] == init[|init| - 1 - (k - 1)];
        }
      }
    }
  }

  /**
   * When every call succeeded, rollback invokes their undo actions newest
   * first: the `k`th action invoked is the one the `k`th call from the end
   * registered.
   */
  lemma RollbackReversesSession(fs: Entries, calls: seq<Call>)
    requires forall i :: 0 <= i < |calls| ==> Succeeded(fs, calls, i)
    ensures |RollbackOrder(Log(fs, calls))| == |calls|
    ensures forall k :: 0 <= k < |calls| ==>
              var c := calls[|calls| - 1 - k];
              Target(c.op) != [] && RollbackOrder(Log(fs, calls))[k] == Entry(Target(c.op), c.now)
  {
    LogOfSucceeded(fs, calls);
    forall i | 0 <= i < |calls| ensures Target(calls[i].op) != [] {
      assert Succeeded(fs, calls, i);
    }
    RollbackOrderOfPushes(calls);
  }

  /** Whether a call succeeded does not depend on the calls after it. */
  lemma SucceededPrefix(fs: Entries, calls: seq<Call>, m: nat, i: nat)
    requires i < m <= |calls|
    ensures Succeeded(fs, calls[..m], i) == Succeeded(fs, calls, i)
  {
    assert calls[..m][..i] == calls[..i];
  }

  /** A call that succeeded pushes its entry. */
  lemma LogSnocSucceeded(fs: Entries, calls: seq<Call>) returns (e: UndoAction)
    requires calls != [] && Succeeded(fs, calls, |calls| - 1)
    ensures Target(calls[|calls| - 1].op) != [] && e == Entry(Target(calls[|calls| - 1].op), calls[|calls| - 1].now)
    ensures Log(fs, calls) == Log(fs, calls[..|calls| - 1]) + [Some(e)]
  {
    hide Effect, Run;
    var n := |calls| - 1;
    RunSnoc(fs, calls, n);
    assert calls[..n + 1] == calls;
    e := Entry(Target(calls[n].op), calls[n].now);
  }

  lemma RollbackOrderSnoc(log: seq<Option<UndoAction>>, e: UndoAction)
    ensures RollbackOrder(log + [Some(e)]) == [e] + RollbackOrder(log)
  {
    assert (log + [Some(e)])[..|log|] == log;
  }

  /** Committing after a sequence of calls keeps the path of every call that succeeded. */
  lemma CommitKeepsSession(fs: Entries, calls: seq<Call>, i: nat)
    requires i < |calls| && Succeeded(fs, calls, i)
    ensures Target(calls[i].op) in Run(fs, calls)
  {
    RunSnoc(fs, calls, i);
    RunKeeps(fs, calls, i + 1, Target(calls[i].op));
  }

  /** Makes one call through the file operations of an `IO`. */
  method Perform(file: AsyncFile, c: Call, disk: Disk) returns (r: Outcome)
    requires disk.Valid()
    modifies disk, file.transaction
    ensures disk.Valid()
    ensures Step(disk.entries, r) == Effect(old(disk.entries), c)
    ensures file.transaction.running == old(file.transaction.running)
    ensures file.transaction.actions ==
              old(file.transaction.actions) + Pushed(old(file.transaction.running), old(disk.entries), Target(c.op), c.now)
  {
    match c.op
    case WriteOp(path, data) =>
      r := file.Write(path, data, disk, c.now);
    case CopyOp(src, dst) =>
      r := file.Copy(src, dst, disk, c.now);
    case CopyAsyncOp(src, dst) =>
      r := file.CopyAsync(src, dst, disk, c.now);
    case CopyBufferedOp(src, dst, n) =>
      r := file.CopyBuffered(src, dst, n, disk, c.now);
  }

  /** Makes the `k`th call of a running session. */
  method PerformNext(io: IO, ghost f0: Entries, calls: seq<Call>, k: nat, disk: Disk) returns (r: Outcome)
    requires k < |calls| && disk.Valid() && disk.entries == Run(f0, calls[..k])
    requires io.file.transaction == io.transaction && io.transaction.running
    requires io.transaction.actions == Log(f0, calls[..k])
    modifies disk, io.transaction
    ensures disk.Valid() && disk.entries == Run(f0, calls[..k + 1])
    ensures io.transaction.running && io.transaction.actions == Log(f0, calls[..k + 1])
    ensures Results(f0, calls[..k + 1]) == Results(f0, calls[..k]) + [r]
  {
    RunSnoc(f0, calls, k);
    r := Perform(io.file, calls[k], disk);
  }

  /**
   * Begins a transaction on a fresh `IO` and makes the calls one after the
   * other, whether or not they throw; the disk and the stack are those the
   * calls produce.
   */
  method RunSession(calls: seq<Call>, disk: Disk) returns (io: IO, outcomes: seq<Outcome>)
    requires disk.Valid()
    modifies disk
    ensures fresh(io.transaction) && io.transaction.running
    ensures disk.Valid() && disk.entries == Run(old(disk.entries), calls)
    ensures io.transaction.actions == Log(old(disk.entries), calls)
    ensures |outcomes| == |calls|
    ensures forall i :: 0 <= i < |calls| ==> (outcomes[i].Pass? <==> Succeeded(old(disk.entries), calls, i))
  {
    RunStart(disk.entries, calls);
    hide Run, Log, Results, Effect, Succeeded;
    ghost var f0 := disk.entries;
    io := new IO();
    var begun := io.BeginTransaction();
    outcomes := [];
    var k := 0;
    while k < |calls|
      invariant 0 <= k <= |calls| && |outcomes| == k
      invariant disk.Valid() && disk.entries == Run(f0, calls[..k])
      invariant io.transaction.running && io.transaction.actions == Log(f0, calls[..k])
      invariant outcomes == Results(f0, calls[..k])
    {
      var r := PerformNext(io, f0, calls, k, disk);
      outcomes := outcomes + [r];
      k := k + 1;
    }
    assert calls[..k] == calls;
    ResultsAt(f0, calls);
  }

  /**
   * Begin, a sequence of calls, rollback: every path written by a call that
   * succeeded and stamped its file is gone, and so is every folder such a
   * call created, with everything in it.
   */
  method SessionAndRollback(calls: seq<Call>, disk: Disk) returns (outcomes: seq<Outcome>)
    requires disk.Valid() && Ordered(calls)
    modifies disk
    ensures disk.Valid() && |outcomes| == |calls|
    ensures forall i :: 0 <= i < |calls| && outcomes[i].Pass? && Restamps(calls[i].op) ==>
              Target(calls[i].op) !in disk.entries
    ensures forall i, q ::
              && 0 <= i < |calls| && outcomes[i].Pass? && Target(calls[i].op) != []
              && Parent(Target(calls[i].op)) !in Run(old(disk.entries), calls[..i]) && q in disk.entries
              ==> !Under(q, Parent(Target(calls[i].op)))
  {
    ghost var f0 := disk.entries;
    var io;
    io, outcomes := RunSession(calls, disk);
    ghost var f1, log := disk.entries, io.transaction.actions;
    var _ := io.Rollback(disk);
    forall i | 0 <= i < |calls| && outcomes[i].Pass?
      ensures Restamps(calls[i].op) ==> Target(calls[i].op) !in disk.entries
      ensures Parent(Target(calls[i].op)) !in Run(f0, calls[..i]) ==>
                forall q :: q in disk.entries ==> !Under(q, Parent(Target(calls[i].op)))
    {
      RollbackUndoesSession(f0, calls, i);
    }
  }

  /**
   * Begin, a sequence of calls, commit: the path of every call that
   * succeeded is on the disk, and the transaction is idle with an empty stack.
   */
  method SessionAndCommit(calls: seq<Call>, disk: Disk) returns (outcomes: seq<Outcome>, idle: bool)
    requires disk.Valid()
    modifies disk
    ensures disk.Valid() && |outcomes| == |calls| && idle
    ensures forall i :: 0 <= i < |calls| && outcomes[i].Pass? ==> Target(calls[i].op) in disk.entries
  {
    ghost var f0 := disk.entries;
    var io;
    io, outcomes := RunSession(calls, disk);
    io.Commit();
    idle := !io.transaction.running && io.transaction.actions == [];
    forall i | 0 <= i < |calls| && outcomes[i].Pass? ensures Target(calls[i].op) in disk.entries {
      CommitKeepsSession(f0, calls, i);
    }
  }

  /**
   * Begin, write `a`, write `b`, write `c` into a folder that does not exist
   * yet, roll back: when the three writes succeed, rollback invokes the
   * action for `c` first, then `b`, then `a`, and leaves neither `a` nor `b`
   * nor anything of the folder of `c`.
   */
  method ThreeWritesAndRollback(a: Path, b: Path, c: Path, data: seq<byte>, disk: Disk, now: Time)
    returns (outcomes: seq<Outcome>, ghost invoked: seq<UndoAction>)
    requires disk.Valid() && c != [] && Parent(c) !in disk.entries
    requires !Under(a, Parent(c)) && !Under(b, Parent(c))
    modifies disk
    ensures disk.Valid() && |outcomes| == 3
    ensures outcomes[0].Pass? && outcomes[1].Pass? && outcomes[2].Pass? ==>
              && a != [] && b != []
              && invoked == [Entry(c, now), Entry(b, now), Entry(a, now)]
              && a !in disk.entries && b !in disk.entries
              && forall q :: q in disk.entries ==> !Under(q, Parent(c))
  {
    hide Effect, Run, Log, Results;
    ghost var f0 := disk.entries;
    var calls := [Call(WriteOp(a, data), now), Call(WriteOp(b, data), now), Call(WriteOp(c, data), now)];
    var io;
    io, outcomes := RunSession(calls, disk);
    invoked := io.Rollback(disk);
    if outcomes[0].Pass? && outcomes[1].Pass? && outcomes[2].Pass? {
      RollbackReversesSession(f0, calls);
      assert Parent(c) !in Run(f0, calls[..2]) by {
        ParentStaysAbsent(f0, calls, Parent(c));
      }
      RollbackUndoesSession(f0, calls, 0);
      RollbackUndoesSession(f0, calls, 1);
      RollbackUndoesSession(f0, calls, 2);
    }
  }

  /** Two writes whose paths are not beneath `d` leave a missing `d` missing. */
  lemma ParentStaysAbsent(fs: Entries, calls: seq<Call>, d: Path)
    requires |calls| == 3 && d !in fs && !Under(Target(calls[0].op), d) && !Under(Target(calls[1].op), d)
    ensures d !in Run(fs, calls[..2])
  {
    RunStart(fs, calls);
    RunSnoc(fs, calls, 0);
    EffectAddsOnTheWay(fs, calls[0], d);
    RunSnoc(fs, calls, 1);
    EffectAddsOnTheWay(Run(fs, calls[..1]), calls[1], d);
  }
}

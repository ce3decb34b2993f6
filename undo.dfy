/**
 * The undo closure that `AsyncFile.HandleTransaction` pushes before every
 * write and copy, written as a value: the path it guards, the folder holding
 * that path, and the threshold `start` (registration time minus a tolerance).
 * Also what a rollback does with a whole stack of them.
 */
module UndoLog {
  import opened Paths
  import opened Outcomes
  import opened FileSystem
  import opened Host

  /** Milliseconds taken off the registration time to absorb timestamp granularity. */
  const Tolerance: int := 50

  datatype UndoAction = UndoAction(path: Path, folder: Path, start: Time)

  /** The action registered for a mutation of `path` made at time `now`. */
  function Entry(path: Path, now: Time): UndoAction
    requires path != []
  {
    UndoAction(path, Parent(path), now - Tolerance)
  }

  /** `after` is `before` with some entries removed and nothing else changed. */
  ghost predicate Shrinks(before: Entries, after: Entries) {
    forall q :: q in after ==> q in before && after[q] == before[q]
  }

  /**
   * What invoking the action does: if its folder exists and was created at or
   * after `start`, the folder goes with everything beneath it; otherwise the
   * file goes if it exists and was last written at or after `start`.
   */
  function UndoEffect(fs: Entries, a: UndoAction): (r: Entries)
    ensures Shrinks(fs, r)
    ensures !IsDir(fs, a.folder) ==> r == fs
    ensures IsDir(fs, a.folder) && fs[a.folder].created >= a.start ==>
              forall q :: q in r <==> q in fs && !Under(q, a.folder)
    ensures IsDir(fs, a.folder) && fs[a.folder].created < a.start ==>
              r == if IsFile(fs, a.path) && fs[a.path].lastWrite >= a.start then fs - {a.path} else fs
    ensures WellFormed(fs) ==> WellFormed(r)
  {
    if IsDir(fs, a.folder) then
      if fs[a.folder].created >= a.start then DeleteTree(fs, a.folder)
      else if IsFile(fs, a.path) && fs[a.path].lastWrite >= a.start then DeleteFile(fs, a.path)
      else fs
    else fs
  }

  /** Invokes the closure on the host filesystem. */
  method Invoke(a: UndoAction, disk: Disk)
    requires disk.Valid()
    modifies disk
    ensures disk.Valid() && disk.entries == UndoEffect(old(disk.entries), a)
  {
    if disk.DirectoryExists(a.folder) {
      if disk.CreationTime(a.folder) >= a.start {
        disk.DeleteDirectory(a.folder);
      } else if disk.FileExists(a.path) && disk.LastWriteTime(a.path) >= a.start {
        disk.DeleteFile(a.path);
      }
    }
  }

  /** Undoing `a` on `fs` removes `a.path` if it is there. */
  ghost predicate Doomed(fs: Entries, a: UndoAction) {
    a.path in fs ==>
      || (IsDir(fs, a.folder) && fs[a.folder].created >= a.start)
      || (IsFile(fs, a.path) && fs[a.path].lastWrite >= a.start)
  }

  /** Undoing `a` on `fs` removes `a.folder` if it is there. */
  ghost predicate FolderDoomed(fs: Entries, a: UndoAction) {
    a.folder in fs ==> IsDir(fs, a.folder) && fs[a.folder].created >= a.start
  }

  /** Actions registered by the file operations name the parent of their path. */
  predicate Registered(a: UndoAction) {
    a.path != [] && a.folder == Parent(a.path)
  }

  lemma UndoRemovesPath(fs: Entries, a: UndoAction)
    requires WellFormed(fs) && Registered(a) && Doomed(fs, a)
    ensures a.path !in UndoEffect(fs, a)
  {
  }

  lemma UndoRemovesFolder(fs: Entries, a: UndoAction)
    requires FolderDoomed(fs, a)
    ensures a.folder !in UndoEffect(fs, a)
  {
  }

  /** Removing other entries keeps a doomed path doomed. */
  lemma ShrinkKeepsDoomed(before: Entries, after: Entries, a: UndoAction)
    requires WellFormed(after) && Registered(a) && Shrinks(before, after)
    requires Doomed(before, a)
    ensures Doomed(after, a)
  {
  }

  /**
   * Later mutations, made at or after the action's threshold, keep a path that
   * was already there doomed: folders never change, and a rewritten file is
   * stamped with the later time.
   */
  lemma ExtendsKeepsDoomed(before: Entries, after: Entries, a: UndoAction, at: Path, now: Time, rewrites: bool)
    requires Extends(before, after, at, now, rewrites) && now >= a.start
    requires a.path in before && Doomed(before, a)
    ensures Doomed(after, a)
  {
    if IsDir(before, a.folder) && before[a.folder].created >= a.start {
      assert after[a.folder] == before[a.folder];
    }
  }

  /** Likewise for a folder that was already there. */
  lemma ExtendsKeepsFolderDoomed(before: Entries, after: Entries, a: UndoAction, at: Path, now: Time, rewrites: bool)
    requires Extends(before, after, at, now, rewrites)
    requires a.folder in before && FolderDoomed(before, a)
    ensures FolderDoomed(after, a)
  {
    assert after[a.folder] == before[a.folder];
  }

  /** The non-null entries of a stack, bottom first. */
  function Live(log: seq<Option<UndoAction>>): seq<UndoAction>
  {
    if log == [] then []
    else (if log[0].Some? then [log[0].value] else []) + Live(log[1..])
  }

  /** Every non-null entry of the stack is kept, as often as it was pushed, and nothing else. */
  lemma {:induction false} LiveKeepsEveryEntry(log: seq<Option<UndoAction>>)
    ensures forall a :: a in Live(log) <==> Some(a) in log
    ensures forall a :: multiset(Live(log))[a] == multiset(log)[Some(a)]
  {
    if log != [] {
      LiveKeepsEveryEntry(log[1..]);
      assert log == [log[0]] + log[1..];
    }
  }

  lemma {:induction false} LiveSnoc(log: seq<Option<UndoAction>>, x: Option<UndoAction>)
    ensures Live(log + [x]) == Live(log) + if x.Some? then [x.value] else []
  {
    if log == [] {
      assert Live([x]) == (if x.Some? then [x.value] else []) + Live([]);
    } else {
      assert (log + [x])[1..] == log[1..] + [x];
      LiveSnoc(log[1..], x);
    }
  }

  /**
   * The order in which Rollback invokes the stack: it pops from the top (the
   * end of `log`) and skips null entries.
   */
  function RollbackOrder(log: seq<Option<UndoAction>>): seq<UndoAction>
    decreases |log|
  {
    if log == [] then []
    else
      var top := log[|log| - 1];
      (if top.Some? then [top.value] else []) + RollbackOrder(log[..|log| - 1])
  }

  /**
   * Rollback meets the non-null entries in exactly the reverse of their push
   * order: the most recently pushed first, each once.
   */
  lemma {:induction false} RollbackOrderReversesLive(log: seq<Option<UndoAction>>)
    ensures |RollbackOrder(log)| == |Live(log)|
    ensures forall k :: 0 <= k < |Live(log)| ==> RollbackOrder(log)[k] == Live(log)[|Live(log)| - 1 - k]
    decreases |log|
  {
    if log != [] {
      var top := log[|log| - 1];
      var below := log[..|log| - 1];
      var head: seq<UndoAction> := if top.Some? then [top.value] else [];
      assert log == below + [top];
      LiveSnoc(below, top);
      RollbackOrderReversesLive(below);
      var r, live := RollbackOrder(log), Live(log);
      assert r == head + RollbackOrder(below);
      assert live == Live(below) + head;
      forall k | 0 <= k < |live| ensures r[k] == live[|live| - 1 - k] {
        if k < |head| {
          assert r[k] == top.value == live[|live| - 1];
        } else {
          assert r[k] == RollbackOrder(below)[k - |head|];
        }
      }
    }
  }

  /** Invoking `actions` one after the other, first to last. */
  function Replay(fs: Entries, actions: seq<UndoAction>): Entries
  {
    if actions == [] then fs else Replay(UndoEffect(fs, actions[0]), actions[1..])
  }

  lemma {:induction false} ReplaySnoc(fs: Entries, actions: seq<UndoAction>, a: UndoAction)
    ensures Replay(fs, actions + [a]) == UndoEffect(Replay(fs, actions), a)
  {
    if actions != [] {
      assert (actions + [a])[1..] == actions[1..] + [a];
      ReplaySnoc(UndoEffect(fs, actions[0]), actions[1..], a);
    }
  }

  /** Rolling back only ever removes entries, and leaves a well-formed tree. */
  lemma {:induction false} ReplayShrinks(fs: Entries, actions: seq<UndoAction>)
    ensures Shrinks(fs, Replay(fs, actions))
    ensures WellFormed(fs) ==> WellFormed(Replay(fs, actions))
  {
    if actions != [] {
      ReplayShrinks(UndoEffect(fs, actions[0]), actions[1..]);
    }
  }

  /** A doomed path is gone once its action has been replayed, whatever runs before or after it. */
  lemma {:induction false} ReplayRemovesPath(fs: Entries, actions: seq<UndoAction>, i: nat)
    requires WellFormed(fs) && i < |actions| && Registered(actions[i])
    requires Doomed(fs, actions[i])
    ensures actions[i].path !in Replay(fs, actions)
  {
    var next := UndoEffect(fs, actions[0]);
    if i == 0 {
      UndoRemovesPath(fs, actions[0]);
      ReplayShrinks(next, actions[1..]);
    } else {
      ShrinkKeepsDoomed(fs, next, actions[i]);
      assert actions[1..][i - 1] == actions[i];
      ReplayRemovesPath(next, actions[1..], i - 1);
    }
  }

  /** Likewise for a folder created after the action's threshold. */
  lemma {:induction false} ReplayRemovesFolder(fs: Entries, actions: seq<UndoAction>, i: nat)
    requires i < |actions| && FolderDoomed(fs, actions[i])
    ensures actions[i].folder !in Replay(fs, actions)
  {
    var next := UndoEffect(fs, actions[0]);
    if i == 0 {
      UndoRemovesFolder(fs, actions[0]);
      ReplayShrinks(next, actions[1..]);
    } else {
      assert actions[1..][i - 1] == actions[i];
      ReplayRemovesFolder(next, actions[1..], i - 1);
    }
  }

  /** Where a non-null entry of the stack shows up in the rollback order. */
  lemma PositionInRollback(log: seq<Option<UndoAction>>, a: UndoAction) returns (i: nat)
    requires Some(a) in log
    ensures i < |RollbackOrder(log)| && RollbackOrder(log)[i] == a
  {
    var live := Live(log);
    LiveKeepsEveryEntry(log);
    assert a in live;
    var k :| 0 <= k < |live| && live[k] == a;
    RollbackOrderReversesLive(log);
    i := |live| - 1 - k;
  }

  /**
   * Rolling back a stack that holds a registered action whose path is doomed
   * leaves that path absent.
   */
  lemma RollbackRemovesPath(fs: Entries, log: seq<Option<UndoAction>>, a: UndoAction)
    requires WellFormed(fs) && Some(a) in log && Registered(a) && Doomed(fs, a)
    ensures a.path !in Replay(fs, RollbackOrder(log))
  {
    var i := PositionInRollback(log, a);
    ReplayRemovesPath(fs, RollbackOrder(log), i);
  }

  /**
   * Rolling back a stack that holds an action whose folder was created at or
   * after its threshold leaves nothing of that folder.
   */
  lemma RollbackRemovesFolder(fs: Entries, log: seq<Option<UndoAction>>, a: UndoAction)
    requires WellFormed(fs) && Some(a) in log && FolderDoomed(fs, a)
    ensures forall q :: q in Replay(fs, RollbackOrder(log)) ==> !Under(q, a.folder)
  {
    var i := PositionInRollback(log, a);
    var r := Replay(fs, RollbackOrder(log));
    ReplayRemovesFolder(fs, RollbackOrder(log), i);
    ReplayShrinks(fs, RollbackOrder(log));
    forall q | q in r ensures !Under(q, a.folder) {
      if Under(q, a.folder) {
        NothingBeneathMissingFolder(r, a.folder, q);
      }
    }
  }
}

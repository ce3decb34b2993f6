/**
 * The transaction of AsyncIO.Core: a running flag and a stack of undo actions.
 * The semaphore that each state change takes is not modelled; every method
 * here runs atomically.
 */
module Transactions {
  import opened Outcomes
  import opened Host
  import opened UndoLog

  class Transaction {
    /** `Running`. */
    var running: bool
    /**
     * `Actions`, the `ConcurrentStack<Action>`: its top is the last element,
     * and `None` stands for a null entry.
     */
    var actions: seq<Option<UndoAction>>

    constructor ()
      ensures !running && actions == []
    {
      running := false;
      actions := [];
    }

    /** Refuses to begin twice; otherwise only raises the flag. */
    method BeginTransaction() returns (r: Outcome)
      modifies this
      ensures old(running) ==> r == Fail(InvalidOperation) && unchanged(this)
      ensures !old(running) ==> r == Pass && running && actions == old(actions)
    {
      if running {
        r := Fail(InvalidOperation);
      } else {
        running := true;
        r := Pass;
      }
    }

    /**
     * Accepts every change: drops the stack without invoking anything. The
     * guard against a transaction that was never begun tests whether the
     * stack object is null, which it never is, so Commit always succeeds.
     */
    method Commit()
      modifies this
      ensures !running && actions == []
    {
      End();
    }

    /**
     * Pops and invokes every action, most recently pushed first, skipping
     * null entries; then returns to idle. Like Commit it always succeeds.
     * `invoked` is the sequence of actions invoked, in order.
     */
    method Rollback(disk: Disk) returns (ghost invoked: seq<UndoAction>)
      requires disk.Valid()
      modifies this, disk
      ensures disk.Valid()
      ensures invoked == RollbackOrder(old(actions))
      ensures disk.entries == Replay(old(disk.entries), invoked)
      ensures !running && actions == []
    {
      invoked := [];
      while actions != []
        invariant disk.Valid()
        invariant invoked + RollbackOrder(actions) == RollbackOrder(old(actions))
        invariant disk.entries == Replay(old(disk.entries), invoked)
        decreases |actions|
      {
        var top := actions[|actions| - 1];
        actions := actions[..|actions| - 1];
        if top.Some? {
          ReplaySnoc(old(disk.entries), invoked, top.value);
          Invoke(top.value, disk);
          invoked := invoked + [top.value];
        }
      }
      End();
    }

    method End()
      modifies this
      ensures !running && actions == []
    {
      running := false;
      actions := [];
    }
  }

  /**
   * A transaction starts idle; a second Begin fails until Commit or Rollback
   * returns it to idle; Commit on an idle transaction succeeds.
   */
  method Lifecycle() returns (first: Outcome, second: Outcome, afterCommit: Outcome, idleCommitLeavesIdle: bool)
    ensures first == Pass && second == Fail(InvalidOperation) && afterCommit == Pass
    ensures idleCommitLeavesIdle
  {
    var t := new Transaction();
    first := t.BeginTransaction();
    second := t.BeginTransaction();
    t.Commit();
    afterCommit := t.BeginTransaction();
    t.Commit();
    t.Commit();
    idleCommitLeavesIdle := !t.running && t.actions == [];
  }
}

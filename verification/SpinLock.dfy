/** The interrupt flag, the lock flags and the held count, as the running thread changes them. */
module SpinLock {
  import opened LockModel
  import opened Wrappers

  class Core {
    var interrupts: bool
    var held: nat
    const locked: array<bool>
    ghost var model: State

    ghost predicate Valid()
      reads this, locked
    {
      && Inv(model) && model.iff == interrupts && model.held == held
      && (forall l :: l in model.locked ==> l < locked.Length)
      && (forall l :: 0 <= l < locked.Length ==> (locked[l] <==> l in model.locked))
    }

    constructor (locks: nat, ghost threads: nat)
      requires 0 < threads
      ensures Valid() && fresh(locked) && locked.Length == locks
      ensures model == State(false, 0, {}, seq(threads, _ => []), 0)
    {
      interrupts, held := false, 0;
      locked := new bool[locks](_ => false);
      model := State(false, 0, {}, seq(threads, _ => []), 0);
      BootInv(threads);
    }

    /** Interrupts off; the guard remembers how they were. */
    method EnterCritical() returns (restore: bool)
      requires Valid()
      modifies this
      ensures Valid() && model == Next(old(model), Enter)
      ensures Own(model) == old(Own(model)) + [Critical(restore)]
    {
      NextInv(model, Enter);
      restore := interrupts;
      if restore {
        interrupts := false;
      }
      model := Next(model, Enter);
    }

    method DropCritical(restore: bool)
      requires Valid() && Own(model) != [] && Own(model)[|Own(model)| - 1] == Critical(restore)
      modifies this
      ensures Valid() && model == Next(old(model), Drop) && interrupts == restore
    {
      NextInv(model, Drop);
      DropInv(model);
      if restore {
        interrupts := true;
      }
      model := Next(model, Drop);
    }

    /**
     First interrupts off, then the flag.  It is found clear, and the wait is over at once, unless the caller
     holds this very lock: then it waits forever, with interrupts off, and nothing is returned.
     */
    method Acquire(l: nat) returns (restore: Option<bool>)
      requires Valid() && l < locked.Length
      modifies this, locked
      ensures Valid() && (restore.None? <==> l in Locks(old(Own(model))))
      ensures restore.None? <==> old(locked[l])
      ensures if restore.Some? then model == Next(old(model), Lock(l)) && restore.value == old(interrupts)
              else model == old(model) && !interrupts
    {
      var enabled := interrupts;
      if enabled {
        interrupts := false;
      }
      var taken := locked[l];
      locked[l] := true;
      if taken {
        return None;
      }
      NextInv(model, Lock(l));
      held := held + 1;
      model := Next(model, Lock(l));
      restore := Some(enabled);
    }

    /** Count down, clear the flag, then let interrupts back in. */
    method Release(l: nat, restore: bool)
      requires Valid() && Own(model) != [] && Own(model)[|Own(model)| - 1] == Guard(l, restore)
      modifies this, locked
      ensures Valid() && model == Next(old(model), Drop) && interrupts == restore
    {
      NextInv(model, Drop);
      DropInv(model);
      LockOf(Own(model), |Own(model)| - 1);
      held := held - 1;
      locked[l] := false;
      if restore {
        interrupts := true;
      }
      model := Next(model, Drop);
    }

    /** Yield and exit refuse while any lock is held: true means the trap is taken. */
    method TryTrap() returns (taken: bool)
      requires Valid()
      modifies this
      ensures Valid() && (taken <==> forall l :: 0 <= l < locked.Length ==> !locked[l])
      ensures taken <==> Allowed(old(model), Trap)
      ensures model == if taken then Next(old(model), Trap) else old(model)
    {
      NoGuardsNoLocks(Own(model));
      taken := held == 0;
      if taken {
        NextInv(model, Trap);
        interrupts := false;
        model := Next(model, Trap);
      } else {
        ghost var l :| l in model.locked;
      }
    }
  }
}

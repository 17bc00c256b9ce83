/**
 Locks on one core as interleaved steps: interrupt flag, lock flags, the global count of held
 locks, and for every thread the stack of what it has entered and not yet left.
 */
module LockModel {
  /** What a thread is inside of, with the interrupt flag found on entry. */
  datatype Item = Critical(saved: bool) | Guard(lock: nat, saved: bool) | Interrupt(saved: bool)

  datatype State = State(iff: bool, held: nat, locked: set<nat>, stacks: seq<seq<Item>>, current: nat)

  datatype Step =
    | Enter            // a critical section
    | Lock(lock: nat)
    | Drop             // leaves the innermost critical section or lock
    | Timer            // a hardware interrupt
    | Trap             // `yield` or `exit`, after its check of the held count
    | Switch(to: nat)  // the interrupt handler picks another thread
    | Iret
    | Spawn(thread: nat) // a frame with interrupts enabled is built for a thread
    | Sti              // the boot code turns interrupts on

  function Own(s: State): seq<Item>
    requires s.current < |s.stacks|
  {
    s.stacks[s.current]
  }

  /** Locks guarded by a stack, and how many guards there are. */
  function Locks(stack: seq<Item>): set<nat> {
    if stack == [] then {}
    else var item := stack[|stack| - 1];
         Locks(stack[..|stack| - 1]) + if item.Guard? then {item.lock} else {}
  }

  function Guards(stack: seq<Item>): nat {
    if stack == [] then 0
    else Guards(stack[..|stack| - 1]) + if stack[|stack| - 1].Guard? then 1 else 0
  }

  /** What the calling code must respect; `Drop` and `Iret` undo the innermost entry only. */
  predicate Allowed(s: State, step: Step)
    requires s.current < |s.stacks|
  {
    match step
    case Enter => true
    case Lock(l) => l !in Locks(Own(s))
    case Drop => Own(s) != [] && !Own(s)[|Own(s)| - 1].Interrupt?
    case Timer => s.iff
    case Trap => s.held == 0
    case Switch(to) => Own(s) != [] && Own(s)[|Own(s)| - 1].Interrupt? && to < |s.stacks| && s.stacks[to] != []
    case Iret => Own(s) != [] && Own(s)[|Own(s)| - 1].Interrupt?
    case Spawn(t) => t < |s.stacks| && t != s.current
    case Sti => Own(s) == []
  }

  function Push(s: State, item: Item): State
    requires s.current < |s.stacks|
  {
    s.(iff := false, stacks := s.stacks[s.current := Own(s) + [item]])
  }

  /** Leaving restores by turning the flag on again, never off. */
  function Pop(s: State): State
    requires s.current < |s.stacks| && Own(s) != []
  {
    s.(iff := s.iff || Own(s)[|Own(s)| - 1].saved, stacks := s.stacks[s.current := Own(s)[..|Own(s)| - 1]])
  }

  function Next(s: State, step: Step): State
    requires s.current < |s.stacks| && Allowed(s, step)
  {
    match step
    case Enter => Push(s, Critical(s.iff))
    case Lock(l) => Push(s, Guard(l, s.iff)).(held := s.held + 1, locked := s.locked + {l})
    case Drop =>
      var item := Own(s)[|Own(s)| - 1];
      if item.Guard? then Pop(s).(held := if s.held == 0 then 0 else s.held - 1, locked := s.locked - {item.lock})
      else Pop(s)
    case Timer => Push(s, Interrupt(s.iff))
    case Trap => Push(s, Interrupt(s.iff))
    case Switch(to) => s.(current := to)
    case Iret => Pop(s).(iff := Own(s)[|Own(s)| - 1].saved)
    case Spawn(t) => s.(stacks := s.stacks[t := [Interrupt(true)]])
    case Sti => s.(iff := true)
  }

  // ----- the invariant -----

  /** Only the outermost entry found interrupts on; no lock is held below an interrupt, or twice. */
  ghost predicate Nested(stack: seq<Item>) {
    if stack == [] then true
    else
      var rest, item := stack[..|stack| - 1], stack[|stack| - 1];
      && Nested(rest)
      && (item.saved ==> rest == [])
      && (item.Interrupt? ==> Guards(rest) == 0)
      && (item.Guard? ==> item.lock !in Locks(rest))
  }

  /** A thread that is not running left through an interrupt, or has no frame yet. */
  ghost predicate Suspended(stack: seq<Item>) {
    stack == [] || (stack[|stack| - 1].Interrupt? && Nested(stack))
  }

  ghost predicate Inv(s: State) {
    && s.current < |s.stacks| && Nested(Own(s))
    && (Own(s) != [] ==> !s.iff)
    && s.held == Guards(Own(s)) && s.locked == Locks(Own(s))
    && forall t :: 0 <= t < |s.stacks| && t != s.current ==> Suspended(s.stacks[t])
  }

  /** Boot: one thread, interrupts off, nothing held. */
  lemma BootInv(threads: nat)
    requires 0 < threads
    ensures Inv(State(false, 0, {}, seq(threads, _ => []), 0))
  {
  }

  lemma {:induction false} NoGuardsNoLocks(stack: seq<Item>)
    ensures Guards(stack) == 0 <==> Locks(stack) == {}
  {
    if stack == [] {
    } else {
      NoGuardsNoLocks(stack[..|stack| - 1]);
    }
  }

  lemma PushOne(stack: seq<Item>, item: Item)
    ensures Locks(stack + [item]) == Locks(stack) + if item.Guard? then {item.lock} else {}
    ensures Guards(stack + [item]) == Guards(stack) + if item.Guard? then 1 else 0
    ensures Nested(stack + [item]) <==>
            && Nested(stack) && (item.saved ==> stack == []) && (item.Interrupt? ==> Guards(stack) == 0)
            && (item.Guard? ==> item.lock !in Locks(stack))
  {
    assert (stack + [item])[..|stack|] == stack;
  }

  /** Whatever steps interleave, the discipline holds. */
  lemma NextInv(s: State, step: Step)
    requires Inv(s) && Allowed(s, step)
    ensures Inv(Next(s, step))
  {
    match step {
      case Enter => PushInv(s, Critical(s.iff), Next(s, step));
      case Lock(l) => PushInv(s, Guard(l, s.iff), Next(s, step));
      case Timer => PushInv(s, Interrupt(s.iff), Next(s, step));
      case Trap => PushInv(s, Interrupt(s.iff), Next(s, step));
      case Drop => DropInv(s);
      case Switch(to) => SwitchInv(s, to);
      case Iret => NoGuardsNoLocks(Own(s)[..|Own(s)| - 1]);
      case Spawn(t) => SpawnInv(s, t);
      case Sti =>
    }
  }

  lemma PushInv(s: State, item: Item, s': State)
    requires Inv(s) && item.saved == s.iff && (item.Interrupt? ==> s.held == 0 || s.iff)
    requires item.Guard? ==> item.lock !in Locks(Own(s))
    requires s' == Push(s, item).(held := s.held + if item.Guard? then 1 else 0,
                                  locked := s.locked + if item.Guard? then {item.lock} else {})
    ensures Inv(s')
  {
    PushOne(Own(s), item);
    assert Own(s') == Own(s) + [item];
    forall t | 0 <= t < |s'.stacks| && t != s'.current ensures Suspended(s'.stacks[t]) {
      assert s'.stacks[t] == s.stacks[t];
    }
  }

  lemma SpawnInv(s: State, t: nat)
    requires Inv(s) && Allowed(s, Spawn(t))
    ensures Inv(Next(s, Spawn(t)))
  {
    PushOne([], Interrupt(true));
    assert [] + [Interrupt(true)] == [Interrupt(true)];
  }

  lemma DropInv(s: State)
    requires Inv(s) && Allowed(s, Drop)
    ensures Inv(Next(s, Drop)) && Next(s, Drop).iff == Own(s)[|Own(s)| - 1].saved
  {
  }

  lemma SwitchInv(s: State, to: nat)
    requires Inv(s) && Allowed(s, Switch(to))
    ensures Inv(Next(s, Switch(to))) && s.locked == {} && s.held == 0
  {
    HandlerHoldsNone(Own(s));
    HandlerHoldsNone(s.stacks[to]);
  }

  lemma HandlerHoldsNone(stack: seq<Item>)
    requires Suspended(stack)
    ensures Guards(stack) == 0 && Locks(stack) == {}
  {
    NoGuardsNoLocks(stack);
  }

  // ----- runs -----

  ghost predicate Run(states: seq<State>, steps: seq<Step>) {
    && |states| == |steps| + 1
    && Inv(states[0])
    && forall i :: 0 <= i < |steps| ==> Took(states, steps, i)
  }

  ghost predicate Took(states: seq<State>, steps: seq<Step>, i: nat)
    requires i < |steps| && |states| == |steps| + 1
  {
    && states[i].current < |states[i].stacks|
    && Allowed(states[i], steps[i]) && states[i + 1] == Next(states[i], steps[i])
  }

  lemma {:induction false} RunInv(states: seq<State>, steps: seq<Step>, n: nat)
    requires Run(states, steps) && n <= |steps|
    ensures Inv(states[n])
  {
    if n == 0 {
    } else {
      RunInv(states, steps, n - 1);
      assert Took(states, steps, n - 1);
      NextInv(states[n - 1], steps[n - 1]);
    }
  }

  /** A held lock keeps interrupts off, and the held count is the number of held locks' guards. */
  lemma HeldMeansClosed(states: seq<State>, steps: seq<Step>, n: nat)
    requires Run(states, steps) && n <= |steps|
    ensures states[n].locked != {} ==> !states[n].iff
    ensures states[n].current < |states[n].stacks|
    ensures states[n].held == Guards(Own(states[n])) && (states[n].held == 0 <==> states[n].locked == {})
    ensures forall t :: 0 <= t < |states[n].stacks| && t != states[n].current ==> Locks(states[n].stacks[t]) == {}
  {
    var s := states[n];
    RunInv(states, steps, n);
    NoGuardsNoLocks(Own(s));
    forall t | 0 <= t < |s.stacks| && t != s.current ensures Locks(s.stacks[t]) == {} {
      HandlerHoldsNone(s.stacks[t]);
    }
  }

  /** A lock the caller does not hold itself is free: `lock()` never spins. */
  lemma LockNeverSpins(states: seq<State>, steps: seq<Step>, n: nat)
    requires Run(states, steps) && n < |steps| && steps[n].Lock?
    ensures steps[n].lock !in states[n].locked
  {
    RunInv(states, steps, n);
    assert Took(states, steps, n);
  }

  /** No lock is held when a timer interrupt arrives or when the handler switches threads. */
  lemma NoSwitchUnderLock(states: seq<State>, steps: seq<Step>, n: nat)
    requires Run(states, steps) && n < |steps| && (steps[n].Timer? || steps[n].Switch? || steps[n].Trap?)
    ensures states[n].locked == {} && states[n].held == 0
  {
    var s := states[n];
    RunInv(states, steps, n);
    assert Took(states, steps, n);
    NoGuardsNoLocks(Own(s));
    if steps[n].Switch? {
      HandlerHoldsNone(Own(s));
    }
  }

  /** The held count is zero exactly when a trap is safe, so the panic of `yield` and `exit` is exact. */
  lemma TrapRefusedIff(states: seq<State>, steps: seq<Step>, n: nat)
    requires Run(states, steps) && n <= |steps|
    ensures states[n].current < |states[n].stacks|
    ensures !Allowed(states[n], Trap) <==> exists l :: l in states[n].locked
  {
    HeldMeansClosed(states, steps, n);
    RunInv(states, steps, n);
    if states[n].locked != {} {
      var l :| l in states[n].locked;
    }
  }

  // ----- leaving restores -----

  /**
   A thread that enters something at depth `d` and later comes back to that depth, whatever it and
   the other threads do in between, finds the interrupt flag as it was before it entered.
   */
  lemma Bracket(states: seq<State>, steps: seq<Step>, i: nat, j: nat, t: nat, d: nat)
    requires Run(states, steps) && i < j < |steps| + 1
    requires states[i].current == t && t < |states[i].stacks| && |Own(states[i])| == d
    requires forall k :: i < k <= j ==> t < |states[k].stacks|
    requires forall k :: i < k < j ==> |states[k].stacks[t]| > d
    requires |states[j].stacks[t]| == d && |states[i + 1].stacks[t]| > d
    requires forall k :: i <= k < j ==> steps[k] != Spawn(t)
    ensures states[j].current == t && states[j].iff == states[i].iff
  {
    assert Took(states, steps, i) && Took(states, steps, j - 1);
    RunInv(states, steps, i);
    RunInv(states, steps, j - 1);
    KeptBelow(states, steps, i, j - 1, t, d);
    if steps[j - 1].Drop? {
      DropInv(states[j - 1]);
    }
  }

  /** The entry at depth `d` stays while the thread is deeper. */
  lemma {:induction false} KeptBelow(states: seq<State>, steps: seq<Step>, i: nat, k: nat, t: nat, d: nat)
    requires Run(states, steps) && i < k <= |steps|
    requires states[i].current == t && t < |states[i].stacks| && |Own(states[i])| == d
    requires forall m :: i < m <= k ==> t < |states[m].stacks| && |states[m].stacks[t]| > d
    requires forall m :: i <= m < k ==> steps[m] != Spawn(t)
    ensures t < |states[k].stacks| && |states[k].stacks[t]| > d && states[k].stacks[t][d].saved == states[i].iff
    decreases k
  {
    assert Took(states, steps, k - 1);
    if k == i + 1 {
    } else {
      KeptBelow(states, steps, i, k - 1, t, d);
    }
  }

  // ----- guards dropped out of order -----

  /** Removes entry `i` rather than the innermost one, as dropping an outer guard first would. */
  function DropAt(s: State, i: nat): State
    requires s.current < |s.stacks| && i < |Own(s)| && Own(s)[i].Guard?
  {
    var item := Own(s)[i];
    s.(iff := s.iff || item.saved, held := if s.held == 0 then 0 else s.held - 1, locked := s.locked - {item.lock},
       stacks := s.stacks[s.current := Own(s)[..i] + Own(s)[i + 1..]])
  }

  /** Out of order, locks stay closed to interrupts exactly if the guard found them off or no lock remains. */
  lemma OutOfOrder(s: State, i: nat)
    requires Inv(s) && i < |Own(s)| && Own(s)[i].Guard?
    ensures (DropAt(s, i).locked != {} ==> !DropAt(s, i).iff)
            <==> !Own(s)[i].saved || s.locked == {Own(s)[i].lock}
  {
    LockOf(Own(s), i);
  }

  lemma {:induction false} LockOf(stack: seq<Item>, i: nat)
    requires i < |stack| && stack[i].Guard?
    ensures stack[i].lock in Locks(stack)
  {
    if i == |stack| - 1 {
    } else {
      LockOf(stack[..|stack| - 1], i);
    }
  }

  /** It does go wrong: two nested locks, the outer one dropped first, and interrupts come on under the inner. */
  lemma OutOfOrderFails()
    ensures var s := State(false, 2, {0, 1}, [[Guard(0, true), Guard(1, false)]], 0);
            && s == Next(Next(State(true, 0, {}, [[]], 0), Lock(0)), Lock(1))
            && DropAt(s, 0).iff && DropAt(s, 0).locked == {1}
  {
    var s1 := Next(State(true, 0, {}, [[]], 0), Lock(0));
    PushOne([], Guard(0, true));
    assert s1 == State(false, 1, {0}, [[Guard(0, true)]], 0);
    assert Next(s1, Lock(1)).stacks[0] == [Guard(0, true), Guard(1, false)];
    assert Next(s1, Lock(1)).locked == {0, 1};
  }
}

/** Locks and threads together: one core runs both step systems at once. */
module LockedSwitch {
  import L = LockModel
  import M = SwitchModel
  import R = SwitchRuns
  import S = SchedModel
  import opened Wrappers

  datatype Whole = Whole(locks: L.State, machine: M.Machine)

  datatype Act =
    | Inside(entry: L.Step)           // critical sections, locks, the return from an interrupt
    | Irq(cause: M.Cause, frame: nat) // entry, handler and its switch
    | Spawn(idle: bool, user: bool)
    | Other(step: M.Step)             // the stack pointer moves, frames change hands

  /** `yield` and `exit` trap after their check; everything else needs interrupts on. */
  function Entry(cause: M.Cause): L.Step {
    if cause.Yield? || cause.Exit? then L.Trap else L.Timer
  }

  function SpawnStep(idle: bool, user: bool): M.Step {
    if idle then M.SpawnIdle else M.Spawn(user)
  }

  predicate Coupled(w: Whole) {
    && |w.locks.stacks| == S.MAX_THREADS && w.locks.current == w.machine.sched.current < S.MAX_THREADS
    && |w.machine.sched.states| == S.MAX_THREADS
  }

  ghost predicate Legal(w: Whole, act: Act)
    requires Coupled(w) && M.Shaped(w.machine)
  {
    match act
    case Inside(step) =>
      (step.Enter? || step.Lock? || step.Drop? || step.Iret? || step.Sti?) && L.Allowed(w.locks, step)
    case Irq(cause, frame) => L.Allowed(w.locks, Entry(cause)) && M.Legal(w.machine, M.Interrupt(cause, frame))
    case Spawn(idle, user) => M.Legal(w.machine, SpawnStep(idle, user))
    case Other(step) => (step.Move? || step.Traffic?) && M.Legal(w.machine, step)
  }

  ghost function Next(w: Whole, act: Act): Whole
    requires Coupled(w) && M.Shaped(w.machine) && Legal(w, act)
  {
    match act
    case Inside(step) => w.(locks := L.Next(w.locks, step))
    case Irq(cause, frame) =>
      var m := M.Next(w.machine, M.Interrupt(cause, frame));
      Whole(Moved(L.Next(w.locks, Entry(cause)), m.sched.current), m)
    case Spawn(idle, user) =>
      var id := M.Enrol(w.machine, idle).1;
      Whole(if id.Ok? then Framed(w.locks, id.value) else w.locks, M.Next(w.machine, SpawnStep(idle, user)))
    case Other(step) => w.(machine := M.Next(w.machine, step))
  }

  /** The handler goes on as thread `to`, if that is another one; `SwitchAllowed` shows that it may. */
  function Moved(l: L.State, to: nat): L.State
    requires l.current < |l.stacks|
  {
    if to != l.current && L.Allowed(l, L.Switch(to)) then L.Next(l, L.Switch(to)) else l
  }

  function Framed(l: L.State, id: nat): L.State
    requires l.current < |l.stacks|
  {
    if L.Allowed(l, L.Spawn(id)) then L.Next(l, L.Spawn(id)) else l
  }

  /** Both invariants, and every thread that may be chosen has a frame to return through. */
  ghost predicate Inv(w: Whole) {
    && Coupled(w) && L.Inv(w.locks) && M.Inv(w.machine)
    && forall id :: 0 <= id < S.MAX_THREADS && w.machine.sched.states[id] == S.Ready ==> w.locks.stacks[id] != []
  }

  lemma BootInv(m: M.Machine)
    requires M.Inv(m) && m.sched.current == 0
    requires forall id :: 0 <= id < S.MAX_THREADS ==> m.sched.states[id] != S.Ready
    ensures Inv(Whole(L.State(false, 0, {}, seq(S.MAX_THREADS, _ => []), 0), m))
  {
    L.BootInv(S.MAX_THREADS);
  }

  // ----- one interrupt -----

  /** Whoever is ready or chosen afterwards was ready before, or is the interrupted thread. */
  lemma Chosen(m: M.Machine, cause: M.Cause, frame: nat)
    requires M.Inv(m) && M.Legal(m, M.Interrupt(cause, frame))
    ensures var m' := M.TakeInterrupt(m, cause, frame);
            && M.Inv(m')
            && forall j :: && 0 <= j < S.MAX_THREADS && j != m.sched.current
                           && (m'.sched.states[j] == S.Ready || m'.sched.current == j) ==>
                             m.sched.states[j] == S.Ready
  {
    R.TakenApart(m, cause, frame);
    var entered, m' := m.(rsp := frame), M.TakeInterrupt(m, cause, frame);
    forall j | 0 <= j < S.MAX_THREADS && j != m.sched.current
               && (m'.sched.states[j] == S.Ready || m'.sched.current == j)
      ensures m.sched.states[j] == S.Ready
    {
      R.ChosenReady(entered, j);
    }
  }

  lemma EntryInv(l: L.State, cause: M.Cause)
    requires L.Inv(l) && L.Allowed(l, Entry(cause))
    ensures var l' := L.Next(l, Entry(cause));
            && L.Inv(l') && l'.current == l.current && |l'.stacks| == |l.stacks| && l'.locked == l.locked
            && L.Own(l') != [] && L.Own(l')[|L.Own(l')| - 1].Interrupt?
            && forall j :: 0 <= j < |l.stacks| && j != l.current ==> l'.stacks[j] == l.stacks[j]
  {
    L.NextInv(l, Entry(cause));
  }

  lemma SwitchAllowed(l: L.State, to: nat)
    requires L.Inv(l) && to < |l.stacks| && l.stacks[to] != []
    requires L.Own(l) != [] && L.Own(l)[|L.Own(l)| - 1].Interrupt?
    ensures L.Inv(Moved(l, to)) && Moved(l, to).current == to && Moved(l, to).stacks == l.stacks
    ensures l.locked == {} && l.held == 0
  {
    L.SwitchInv(l, to);
  }

  /** The locks' side of an interrupt that goes on as thread `to`. */
  lemma LockSide(l: L.State, cause: M.Cause, to: nat)
    requires L.Inv(l) && L.Allowed(l, Entry(cause)) && to < |l.stacks| && (to == l.current || l.stacks[to] != [])
    ensures var l' := Moved(L.Next(l, Entry(cause)), to);
            && L.Inv(l') && l'.current == to && |l'.stacks| == |l.stacks| && l'.stacks[l.current] != []
            && forall j :: 0 <= j < |l.stacks| && j != l.current ==> l'.stacks[j] == l.stacks[j]
    ensures l.locked == {} && l.held == 0
  {
    EntryInv(l, cause);
    SwitchAllowed(L.Next(l, Entry(cause)), to);
  }

  lemma IrqInv(w: Whole, cause: M.Cause, frame: nat)
    requires Inv(w) && Legal(w, Irq(cause, frame))
    ensures Inv(Next(w, Irq(cause, frame)))
    ensures w.locks.locked == {} && w.locks.held == 0
  {
    Chosen(w.machine, cause, frame);
    LockSide(w.locks, cause, M.TakeInterrupt(w.machine, cause, frame).sched.current);
  }

  // ----- every act -----

  lemma SpawnInv(w: Whole, idle: bool, user: bool)
    requires Inv(w) && Legal(w, Spawn(idle, user))
    ensures Inv(Next(w, Spawn(idle, user)))
    ensures Next(w, Spawn(idle, user)).machine.sched.current == w.machine.sched.current
  {
    R.NextInv(w.machine, SpawnStep(idle, user));
    R.Enrolled(w.machine, idle);
    var id := M.Enrol(w.machine, idle).1;
    if id.Ok? {
      L.NextInv(w.locks, L.Spawn(id.value));
    }
  }

  lemma NextInv(w: Whole, act: Act)
    requires Inv(w) && Legal(w, act)
    ensures Inv(Next(w, act))
    ensures Next(w, act).machine.sched.current != w.machine.sched.current ==>
              act.Irq? && w.locks.locked == {} && w.locks.held == 0
  {
    match act {
      case Inside(step) => L.NextInv(w.locks, step);
      case Irq(cause, frame) => IrqInv(w, cause, frame);
      case Spawn(idle, user) => SpawnInv(w, idle, user);
      case Other(step) => R.NextInv(w.machine, step);
    }
  }

  ghost predicate Took(ws: seq<Whole>, acts: seq<Act>, n: nat)
    requires n < |acts| && |ws| == |acts| + 1
  {
    Coupled(ws[n]) && M.Shaped(ws[n].machine) && Legal(ws[n], acts[n]) && ws[n + 1] == Next(ws[n], acts[n])
  }

  ghost predicate InRun(ws: seq<Whole>, acts: seq<Act>) {
    |ws| == |acts| + 1 && Inv(ws[0]) && forall n :: 0 <= n < |acts| ==> Took(ws, acts, n)
  }

  lemma {:induction false} RunInv(ws: seq<Whole>, acts: seq<Act>, n: nat)
    requires InRun(ws, acts) && n <= |acts|
    ensures Inv(ws[n])
  {
    if n == 0 {
    } else {
      RunInv(ws, acts, n - 1);
      assert Took(ws, acts, n - 1);
      NextInv(ws[n - 1], acts[n - 1]);
    }
  }

  /** Whatever interleaves: the running thread changes only in an interrupt that finds no lock held by anyone. */
  lemma SwitchesUnlocked(ws: seq<Whole>, acts: seq<Act>, n: nat)
    requires InRun(ws, acts) && n < |acts|
    requires ws[n + 1].machine.sched.current != ws[n].machine.sched.current
    ensures acts[n].Irq? && ws[n].locks.locked == {} && ws[n].locks.held == 0
    ensures ws[n + 1].locks.current == ws[n + 1].machine.sched.current
  {
    RunInv(ws, acts, n);
    assert Took(ws, acts, n);
    NextInv(ws[n], acts[n]);
  }
}

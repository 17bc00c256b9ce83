/** Every step of context switching keeps each thread on its own stack. */
module SwitchRuns {
  import opened FrameModel
  import opened MemoryMap
  import R = SchedRuns
  import S = SchedModel
  import opened SwitchModel
  import opened Wrappers

  // ----- reaping -----

  lemma ReapOneInv(m: Machine)
    requires Inv(m) && ReapOne(m).Some?
    ensures var m' := ReapOne(m).value;
            Inv(m') && m'.sched.current == m.sched.current && m'.slots[m.sched.current] == m.slots[m.sched.current]
  {
    var m', id := ReapOne(m).value, S.TakeReapable(m.sched).1.value;
    S.ReapInv(m.sched);
    ReapProgress(m);
    if m.slots[id].stack.Some? {
      FreeBalanced(m.ledger, m.slots[id].stack.value);
    }
    assert id != m.sched.current;
    forall j | 0 <= j < S.MAX_THREADS ensures SlotOk(m', j) {
      assert SlotOk(m, j) && SlotOk(m, id);
    }
  }

  /** The whole loop leaves the running thread, its slot and the stack it stands on alone. */
  lemma {:induction false} ReapedInv(m: Machine)
    requires Inv(m)
    ensures var m' := Reaped(m);
            && Inv(m') && m'.sched.current == m.sched.current && m'.slots[m.sched.current] == m.slots[m.sched.current]
            && m'.sched.queue == m.sched.queue && m'.sched.idle == m.sched.idle
            && m'.rsp == m.rsp && m'.rsp0 == m.rsp0 && m'.origin == m.origin && m'.boot == m.boot
    decreases ExitedBelow(m.sched.states, S.MAX_THREADS)
  {
    if ReapOne(m).None? {
    } else {
      ReapOneInv(m);
      ReapProgress(m);
      ReapedInv(ReapOne(m).value);
    }
  }

  // ----- switching -----

  /**
   What a decision does to the scheduler, seen from the slots: it keeps the current thread, or hands over to a ready
   one and leaves the old one ready, or exited if that was the cause.
   */
  ghost predicate HandsOver(sched: S.Sched, exiting: bool, sched': S.Sched, d: S.Decision)
    requires S.Shaped(sched) && sched.current < S.MAX_THREADS
  {
    && S.Inv(sched') && sched'.kinds == sched.kinds
    && match d
       case Keep => sched'.states == sched.states && sched'.current == sched.current
       case Switch(from, to) =>
         && from == sched.current && to == sched'.current && to < S.MAX_THREADS
         && (from != to ==> sched.states[to] == S.Ready)
         && (forall j :: 0 <= j < S.MAX_THREADS && j != from && j != to ==> sched'.states[j] == sched.states[j])
         && (from != to ==> sched'.states[from] == if exiting then S.Exited else S.Ready)
  }

  lemma RotateHandsOver(sched: S.Sched)
    requires S.Inv(sched)
    ensures HandsOver(sched, false, S.Rotate(sched).0, S.Rotate(sched).1)
  {
    S.RotateInv(sched);
    if sched.queue != [] {
      assert sched.queue[0] in sched.queue && S.Waiting(sched, sched.queue[0]);
    }
  }

  lemma ExitHandsOver(sched: S.Sched)
    requires S.Inv(sched) && S.ExitSafe(sched)
    ensures S.ExitCurrent(sched).1.Ok?
    ensures HandsOver(sched, true, S.ExitCurrent(sched).0, S.ExitCurrent(sched).1.value)
  {
    S.ExitInv(sched);
    if sched.queue != [] {
      assert sched.queue[0] in sched.queue && S.Waiting(sched, sched.queue[0]);
    }
  }

  lemma Decided(sched: S.Sched, cause: Cause)
    requires S.Inv(sched) && (cause.Exit? ==> S.ExitSafe(sched))
    ensures HandsOver(sched, cause.Exit?, Decide(sched, cause).0, Decide(sched, cause).1)
  {
    match cause {
      case Timer(preempt) =>
        var ticked := sched.(ticks := sched.ticks + 1);
        assert S.Inv(ticked);
        if preempt {
          RotateHandsOver(ticked);
        }
      case Yield => RotateHandsOver(sched);
      case Exit => ExitHandsOver(sched);
      case Other =>
    }
  }

  lemma SwitchInv(m: Machine, cause: Cause, frame: nat)
    requires Inv(m) && StackOf(m, m.sched.current).HoldsFrame(frame)
    requires cause.Exit? ==> S.ExitSafe(m.sched)
    requires Decide(m.sched, cause).1.Switch?
    ensures var d := Decide(m.sched, cause);
            var (m', rsp) := SwitchTo(m.(sched := d.0), d.1.from, d.1.to, frame);
            rsp != 0 && Inv(m'.(rsp := rsp))
  {
    Decided(m.sched, cause);
    var (sched', d) := Decide(m.sched, cause);
    SwitchedInv(m, sched', d.from, d.to, frame);
  }

  lemma SwitchedInv(m: Machine, sched': S.Sched, from: nat, to: nat, frame: nat)
    requires Inv(m) && from == m.sched.current && StackOf(m, from).HoldsFrame(frame)
    requires S.Inv(sched') && sched'.kinds == m.sched.kinds && to == sched'.current < S.MAX_THREADS
    requires from != to ==> m.sched.states[to] == S.Ready && sched'.states[from] in {S.Ready, S.Exited}
    requires forall j :: 0 <= j < S.MAX_THREADS && j != from && j != to ==> sched'.states[j] == m.sched.states[j]
    ensures var (m', rsp) := SwitchTo(m.(sched := sched'), from, to, frame);
            rsp != 0 && Inv(m'.(rsp := rsp))
  {
    var (m', rsp) := SwitchTo(m.(sched := sched'), from, to, frame);
    var after := m'.(rsp := rsp);
    assert SlotOk(m, from) && SlotOk(m, to);
    assert StackOf(m, to).HoldsFrame(rsp);
    StackPositive(m, to);
    forall j | 0 <= j < S.MAX_THREADS ensures SlotOk(after, j) {
      assert SlotOk(m, j);
    }
  }

  lemma StackPositive(m: Machine, id: nat)
    requires Inv(m) && id < S.MAX_THREADS
    ensures 0 < StackOf(m, id).lo
  {
  }

  lemma InterruptInv(m: Machine, cause: Cause, frame: nat)
    requires Inv(m) && Legal(m, Interrupt(cause, frame))
    ensures Inv(TakeInterrupt(m, cause, frame))
  {
    FrameOnOwnStack(m, cause, frame);
    var entered := m.(rsp := frame);
    EnteredInv(m, frame);
    ReapedInv(entered);
    var reaped := Reaped(entered);
    Decided(reaped.sched, cause);
    if Decide(reaped.sched, cause).1.Switch? {
      SwitchInv(reaped, cause, frame);
    } else {
      KeepInv(reaped, Decide(reaped.sched, cause).0);
    }
  }

  /** Wherever the interrupt came from, its frame lies on the running thread's stack. */
  lemma FrameOnOwnStack(m: Machine, cause: Cause, frame: nat)
    requires Inv(m) && Legal(m, Interrupt(cause, frame))
    ensures StackOf(m, m.sched.current).HoldsFrame(frame)
  {
    var id := m.sched.current;
    assert SlotOk(m, id);
    assert IsStack(m, StackOf(m, id));
  }

  lemma EnteredInv(m: Machine, frame: nat)
    requires Inv(m) && StackOf(m, m.sched.current).HoldsFrame(frame)
    ensures Inv(m.(rsp := frame))
  {
    forall j | 0 <= j < S.MAX_THREADS ensures SlotOk(m.(rsp := frame), j) {
      assert SlotOk(m, j);
    }
  }

  lemma KeepInv(m: Machine, sched: S.Sched)
    requires Inv(m) && S.Inv(sched) && sched.states == m.sched.states && sched.kinds == m.sched.kinds
    requires sched.current == m.sched.current
    ensures Inv(m.(sched := sched))
  {
    forall j | 0 <= j < S.MAX_THREADS ensures SlotOk(m.(sched := sched), j) {
      assert SlotOk(m, j);
    }
  }

  // ----- every thread goes on where it left off -----

  /** An interrupt in its parts: reaping, the decision, and what becomes of slots, frames and the stack pointer. */
  ghost predicate InParts(m: Machine, cause: Cause, frame: nat, calm: Machine, m': Machine)
    requires SwitchModel.Shaped(m) && SwitchModel.Shaped(calm)
  {
    var from, to := m.sched.current, m'.sched.current;
    && Inv(calm) && Inv(m') && calm.sched.current == from && m'.ledger == calm.ledger
    && (from != to ==> calm.sched.states[to] == S.Ready
                       && m'.sched.states[from] == if cause.Exit? then S.Exited else S.Ready)
    && (forall j :: 0 <= j < S.MAX_THREADS && j != from && j != to ==> m'.sched.states[j] == calm.sched.states[j])
    && (forall j :: 0 <= j < S.MAX_THREADS && j != from ==> m'.slots[j] == calm.slots[j])
    && m'.slots[from].(rsp := frame) == m.slots[from].(rsp := frame)
    && (if from == to then m'.rsp == frame
        else m'.slots[from].rsp == frame && m'.rsp == calm.slots[to].rsp)
  }

  lemma TakenApart(m: Machine, cause: Cause, frame: nat)
    requires Inv(m) && Legal(m, Interrupt(cause, frame))
    ensures InParts(m, cause, frame, Reaped(m.(rsp := frame)), TakeInterrupt(m, cause, frame))
  {
    InterruptInv(m, cause, frame);
    CalmInv(m, cause, frame);
    Dispatched(Reaped(m.(rsp := frame)), cause, frame);
  }

  lemma CalmInv(m: Machine, cause: Cause, frame: nat)
    requires Inv(m) && Legal(m, Interrupt(cause, frame))
    ensures var calm := Reaped(m.(rsp := frame));
            && Inv(calm) && calm.sched.current == m.sched.current && calm.rsp == frame
            && calm.slots[m.sched.current] == m.slots[m.sched.current]
            && (cause.Exit? ==> S.ExitSafe(calm.sched))
  {
    FrameOnOwnStack(m, cause, frame);
    EnteredInv(m, frame);
    ReapedInv(m.(rsp := frame));
  }

  /** The handler once nobody is left to reap. */
  lemma Dispatched(calm: Machine, cause: Cause, frame: nat)
    requires Inv(calm) && (cause.Exit? ==> S.ExitSafe(calm.sched))
    ensures var (sched, d) := Decide(calm.sched, cause);
            var from, to := calm.sched.current, sched.current;
            && to < S.MAX_THREADS
            && (from != to ==> calm.sched.states[to] == S.Ready && calm.slots[to].rsp != 0 && d == S.Switch(from, to)
                               && sched.states[from] == if cause.Exit? then S.Exited else S.Ready)
            && (from == to ==> d == S.Keep || d == S.Switch(from, to))
            && forall j :: 0 <= j < S.MAX_THREADS && j != from && j != to ==> sched.states[j] == calm.sched.states[j]
  {
    Decided(calm.sched, cause);
    var to := Decide(calm.sched, cause).0.current;
    if to != calm.sched.current {
      assert SlotOk(calm, to);
      StackPositive(calm, to);
    }
  }

  /**
   Handing the processor on saves the interrupted frame in its thread's slot and continues from the frame in
   the chosen thread's slot; otherwise the interrupted frame is continued.
   */
  ghost predicate Continues(m: Machine, m': Machine, frame: nat)
    requires SwitchModel.Shaped(m) && SwitchModel.Shaped(m')
    requires m.sched.current < S.MAX_THREADS && m'.sched.current < S.MAX_THREADS
  {
    if m'.sched.current == m.sched.current then m'.rsp == frame
    else m'.slots[m.sched.current].rsp == frame && m'.rsp == m.slots[m'.sched.current].rsp
  }

  /** The handler does so, once the frame is on the stack. */
  lemma HandlerContinues(m: Machine, cause: Cause, frame: nat)
    requires Inv(m) && m.rsp == frame && (cause.Exit? ==> S.ExitSafe(m.sched))
    ensures var m' := TakeInterrupt(m, cause, frame);
            SwitchModel.Shaped(m') && m'.sched.current < S.MAX_THREADS && Continues(m, m', frame)
  {
    var calm, to := Reaped(m), TakeInterrupt(m, cause, frame).sched.current;
    assert m.(rsp := frame) == m;
    ReapedInv(m);
    Dispatched(calm, cause, frame);
    if to != m.sched.current {
      ChosenKept(m, to);
    }
  }

  lemma ChosenKept(m: Machine, j: nat)
    requires SwitchModel.Shaped(m) && j < S.MAX_THREADS && Reaped(m).sched.states[j] == S.Ready
    ensures Reaped(m).slots[j] == m.slots[j]
  {
    ChosenReady(m, j);
    ReapedKeeps(m);
    assert KeptSlot(m, Reaped(m), j);
  }

  /** An interrupt does so, and changes no other live slot. */
  lemma SwitchSaves(m: Machine, cause: Cause, frame: nat)
    requires Inv(m) && Legal(m, Interrupt(cause, frame))
    ensures var m', id := TakeInterrupt(m, cause, frame), m.sched.current;
            && SwitchModel.Shaped(m') && m'.sched.current < S.MAX_THREADS && Continues(m, m', frame)
            && m'.slots[id].(rsp := frame) == m.slots[id].(rsp := frame)
            && forall j :: 0 <= j < S.MAX_THREADS && j != id && m.sched.states[j] != S.Exited ==>
                           m'.slots[j] == m.slots[j]
  {
    TakenApart(m, cause, frame);
    var entered, to := m.(rsp := frame), TakeInterrupt(m, cause, frame).sched.current;
    ReapedKeeps(entered);
    if to != m.sched.current {
      ChosenReady(entered, to);
      assert KeptSlot(entered, Reaped(entered), to);
    }
    assert forall j :: 0 <= j < S.MAX_THREADS && m.sched.states[j] != S.Exited ==>
                       KeptSlot(entered, Reaped(entered), j);
  }

  lemma ChosenReady(m: Machine, j: nat)
    requires SwitchModel.Shaped(m) && j < S.MAX_THREADS && Reaped(m).sched.states[j] == S.Ready
    ensures m.sched.states[j] == S.Ready
  {
    if m.sched.states[j] == S.Exited {
      ReapedClears(m, j);
    } else {
      ReapedKeeps(m);
      assert KeptSlot(m, Reaped(m), j);
    }
  }

  /** Thread `id` is off the processor with this frame saved, and has not been reaped. */
  ghost predicate Away(m: Machine, id: nat, frame: nat) {
    && Inv(m) && id < S.MAX_THREADS && id != m.sched.current && m.sched.states[id] != S.Unused
    && m.slots[id].rsp == frame
  }

  /** It is still away with that frame, or has been reaped, or goes on from it. */
  ghost predicate AwayOrBack(m: Machine, id: nat, frame: nat) {
    && Inv(m) && id < S.MAX_THREADS
    && (Away(m, id, frame) || m.sched.states[id] == S.Unused || (m.sched.current == id && m.rsp == frame))
  }

  lemma AwayStep(m: Machine, step: Step, id: nat, frame: nat)
    requires Away(m, id, frame) && Legal(m, step)
    ensures AwayOrBack(Next(m, step), id, frame)
  {
    NextInv(m, step);
    match step {
      case Spawn(user) => Enrolled(m, false);
      case SpawnIdle => Enrolled(m, true);
      case Move(_) =>
      case Traffic(_) =>
      case Interrupt(cause, f) =>
        if m.sched.states[id] == S.Exited {
          ExitedReaped(m, cause, f, id);
        } else {
          SwitchSaves(m, cause, f);
          StaysAlive(m, cause, f, id);
        }
    }
  }

  /** An interrupt reaps everyone who had exited: slot cleared, stack given back. */
  lemma ExitedReaped(m: Machine, cause: Cause, frame: nat, id: nat)
    requires Inv(m) && Legal(m, Interrupt(cause, frame)) && id < S.MAX_THREADS && m.sched.states[id] == S.Exited
    ensures var m' := TakeInterrupt(m, cause, frame);
            && SwitchModel.Shaped(m') && m'.sched.states[id] == S.Unused && m'.slots[id] == EmptySlot
            && (m.slots[id].stack.Some? ==> m.slots[id].stack.value !in m'.ledger.out)
  {
    TakenApart(m, cause, frame);
    ReapedClears(m.(rsp := frame), id);
  }

  /** Nobody else is reaped. */
  lemma StaysAlive(m: Machine, cause: Cause, frame: nat, id: nat)
    requires Inv(m) && Legal(m, Interrupt(cause, frame)) && id < S.MAX_THREADS
    requires m.sched.states[id] != S.Exited && m.sched.states[id] != S.Unused
    ensures var m' := TakeInterrupt(m, cause, frame); SwitchModel.Shaped(m') && m'.sched.states[id] != S.Unused
  {
    TakenApart(m, cause, frame);
    var entered := m.(rsp := frame);
    ReapedKeeps(entered);
    assert KeptSlot(entered, Reaped(entered), id);
  }

  /** Whatever happens meanwhile, the frame saved for a thread is the one it goes on from. */
  lemma {:induction false} Resumes(ms: seq<Machine>, steps: seq<Step>, i: nat, j: nat, id: nat, frame: nat)
    requires InRun(ms, steps) && Inv(ms[0]) && i < j <= |steps| && Away(ms[i], id, frame)
    requires forall k :: i < k < j ==> ms[k].sched.current != id && ms[k].sched.states[id] != S.Unused
    ensures AwayOrBack(ms[j], id, frame)
    decreases j
  {
    if i + 1 < j {
      Resumes(ms, steps, i, j - 1, id, frame);
    }
    AwayNext(ms, steps, j, id, frame);
  }

  lemma AwayNext(ms: seq<Machine>, steps: seq<Step>, j: nat, id: nat, frame: nat)
    requires InRun(ms, steps) && 0 < j <= |steps| && Away(ms[j - 1], id, frame)
    ensures AwayOrBack(ms[j], id, frame)
  {
    assert Took(ms, steps, j - 1);
    AwayStep(ms[j - 1], steps[j - 1], id, frame);
  }

  /** A thread interrupted with a frame is next current, unless it is reaped before, with that frame. */
  lemma GoesOn(ms: seq<Machine>, steps: seq<Step>, i: nat, j: nat)
    requires InRun(ms, steps) && Inv(ms[0]) && i + 1 < j <= |steps| && steps[i].Interrupt?
    requires var id := ms[i].sched.current;
             && ms[j].sched.current == id
             && forall k :: i < k < j ==> ms[k].sched.current != id && ms[k].sched.states[id] != S.Unused
    ensures ms[j].rsp == steps[i].frame
  {
    var id, frame := ms[i].sched.current, steps[i].frame;
    RunInv(ms, steps, i);
    assert Took(ms, steps, i);
    assert ms[i + 1].sched.current != id && ms[i + 1].sched.states[id] != S.Unused;
    Leaves(ms[i], steps[i].cause, frame);
    RunInv(ms, steps, j);
    Resumes(ms, steps, i + 1, j, id, frame);
  }

  lemma Leaves(m: Machine, cause: Cause, frame: nat)
    requires Inv(m) && Legal(m, Interrupt(cause, frame))
    ensures var m', id := TakeInterrupt(m, cause, frame), m.sched.current;
            && Inv(m')
            && (m'.sched.current != id && m'.sched.states[id] != S.Unused ==> Away(m', id, frame))
  {
    InterruptInv(m, cause, frame);
    SwitchSaves(m, cause, frame);
  }

  /** A new thread starts from the frame at the very top of its own stack. */
  lemma StartsAtTop(ms: seq<Machine>, steps: seq<Step>, i: nat, j: nat, id: nat)
    requires InRun(ms, steps) && Inv(ms[0]) && i + 1 < j <= |steps| && (steps[i].Spawn? || steps[i].SpawnIdle?)
    requires Enrol(ms[i], steps[i].SpawnIdle?).1 == Ok(id) && ms[j].sched.current == id
    requires forall k :: i < k < j ==> ms[k].sched.current != id && ms[k].sched.states[id] != S.Unused
    ensures id < |ms[i + 1].slots| && ms[i + 1].slots[id].stack.Some?
    ensures ms[i + 1].slots[id].user <==> steps[i].Spawn? && steps[i].user
    ensures ms[j].rsp + FRAME_SIZE == StackOf(ms[i + 1], id).hi
  {
    RunInv(ms, steps, i);
    RunInv(ms, steps, i + 1);
    RunInv(ms, steps, j);
    assert Took(ms, steps, i);
    Enrolled(ms[i], steps[i].SpawnIdle?);
    assert SlotOk(ms[i + 1], id);
    Resumes(ms, steps, i + 1, j, id, ms[i + 1].slots[id].rsp);
  }

  // ----- creation -----

  lemma Enrolled(m: Machine, idle: bool)
    requires SwitchModel.Shaped(m) && S.Inv(m.sched)
    ensures var (sched, id) := Enrol(m, idle);
            && S.Inv(sched) && sched.current == m.sched.current
            && if id.Err? then sched == m.sched
               else && id.value < S.MAX_THREADS && m.sched.states[id.value] == S.Unused
                    && sched.states == m.sched.states[id.value := S.Ready]
                    && sched.kinds == m.sched.kinds[id.value := if idle then S.Idle else S.Normal]
  {
    if idle {
      S.RegisterIdleAnyInv(m.sched);
    } else {
      S.CreateInv(m.sched);
    }
  }

  /** Creation keeps the invariant if and only if it is refused at once or finds a stack. */
  lemma StartInvIff(m: Machine, idle: bool, user: bool)
    requires Inv(m)
    ensures Inv(Start(m, idle, user)) <==>
            Enrol(m, idle).1.Err? || AllocContiguous(m.ledger.frames, STACK_PAGES).1.Some?
  {
    Enrolled(m, idle);
    var (sched, r) := Enrol(m, idle);
    if r.Ok? {
      if AllocContiguous(m.ledger.frames, STACK_PAGES).1.Some? {
        NewStack(m);
        PrepareInv(m, sched, r.value, if idle then S.Idle else S.Normal, user);
      } else {
        assert SlotOk(m, r.value) && !SlotOk(Start(m, idle, user), r.value);
      }
    }
  }

  /** The new run is nobody's stack yet. */
  lemma NewStack(m: Machine)
    requires Inv(m) && AllocContiguous(m.ledger.frames, STACK_PAGES).1.Some?
    ensures var run := Run(AllocContiguous(m.ledger.frames, STACK_PAGES).1.value, STACK_PAGES);
            var l := FrameModel.Step(m.ledger, AllocOp(STACK_PAGES));
            && run !in m.ledger.out && Balanced(l) && l.out == m.ledger.out + {run}
            && l.frames.allocatable == m.ledger.frames.allocatable
  {
    var (f, s) := AllocContiguous(m.ledger.frames, STACK_PAGES);
    var run := Run(s.value, STACK_PAGES);
    AllocMoves(m.ledger.frames, STACK_PAGES);
    AllocBalanced(m.ledger, STACK_PAGES);
    assert IsFree(m.ledger.frames, run.start);
    assert run in m.ledger.out ==> OutCovers(m.ledger.out, run.start);
  }

  lemma PrepareInv(m: Machine, sched: S.Sched, id: nat, kind: S.ThreadKind, user: bool)
    requires Inv(m) && S.Inv(sched) && sched.current == m.sched.current && id < S.MAX_THREADS
    requires m.sched.states[id] == S.Unused && sched.states == m.sched.states[id := S.Ready]
    requires kind != S.Boot && sched.kinds == m.sched.kinds[id := kind]
    requires AllocContiguous(m.ledger.frames, STACK_PAGES).1.Some?
    ensures Inv(Prepare(m.(sched := sched), id, user))
  {
    NewStack(m);
    var m' := Prepare(m.(sched := sched), id, user);
    var run := m'.slots[id].stack.value;
    forall j | 0 <= j < S.MAX_THREADS ensures SlotOk(m', j) {
      assert SlotOk(m, j);
    }
    forall j | 0 <= j < S.MAX_THREADS && m.slots[j].stack.Some? ensures m.slots[j].stack.value != run {
      assert SlotOk(m, j);
    }
  }

  // ----- other frames -----

  /** Whatever else is done with frames, short of giving back a thread's stack, leaves the threads alone. */
  lemma TrafficInv(m: Machine, op: Op)
    requires Inv(m) && SparesStacks(m, op)
    ensures Inv(m.(ledger := FrameModel.Step(m.ledger, op)))
  {
    StepBalanced(m.ledger, op);
    var m' := m.(ledger := FrameModel.Step(m.ledger, op));
    forall id | 0 <= id < S.MAX_THREADS ensures SlotOk(m', id) {
      assert SlotOk(m, id);
      if m.slots[id].stack.Some? {
        StackStays(m.ledger, op, m.slots[id].stack.value);
      }
    }
  }

  lemma StackStays(l: Ledger, op: Op, stack: Run)
    requires Balanced(l) && Spares(op, stack) && stack in l.out
    ensures stack in FrameModel.Step(l, op).out
  {
  }

  // ----- runs -----

  lemma NextInv(m: Machine, step: Step)
    requires Inv(m) && Legal(m, step)
    ensures Inv(Next(m, step))
  {
    match step {
      case Spawn(user) => StartInvIff(m, false, user);
      case SpawnIdle => StartInvIff(m, true, false);
      case Interrupt(cause, frame) => InterruptInv(m, cause, frame);
      case Move(rsp) =>
        assert IsStack(m, StackOf(m, m.sched.current));
        forall j | 0 <= j < S.MAX_THREADS ensures SlotOk(m.(rsp := rsp), j) {
          assert SlotOk(m, j);
        }
      case Traffic(op) => TrafficInv(m, op);
    }
  }

  ghost predicate InRun(ms: seq<Machine>, steps: seq<Step>) {
    && |ms| == |steps| + 1
    && (forall n :: 0 <= n < |ms| ==> SwitchModel.Shaped(ms[n]))
    && forall n :: 0 <= n < |steps| ==> Took(ms, steps, n)
  }

  ghost predicate Took(ms: seq<Machine>, steps: seq<Step>, n: nat)
    requires n < |steps| && |ms| == |steps| + 1 && SwitchModel.Shaped(ms[n])
  {
    Legal(ms[n], steps[n]) && ms[n + 1] == Next(ms[n], steps[n])
  }

  lemma {:induction false} RunInv(ms: seq<Machine>, steps: seq<Step>, n: nat)
    requires InRun(ms, steps) && Inv(ms[0]) && n <= |steps|
    ensures Inv(ms[n])
  {
    if n == 0 {
    } else {
      RunInv(ms, steps, n - 1);
      assert Took(ms, steps, n - 1);
      NextInv(ms[n - 1], steps[n - 1]);
    }
  }

  /** Where a run may start: only the boot thread, on the boot stack, over an allocator in balance. */
  lemma BootInv(ledger: Ledger, origin: nat, boot: Stack, rsp: nat)
    requires Balanced(ledger) && boot.Holds(rsp)
    requires BootApart(Machine(S.Fresh, [], ledger, origin, boot, rsp, 0))
    ensures Inv(Machine(S.RegisterBoot(S.Fresh, 0).0, seq(S.MAX_THREADS, _ => EmptySlot), ledger, origin, boot, rsp, 0))
  {
    S.BootInv(0);
    var m := Machine(S.RegisterBoot(S.Fresh, 0).0, seq(S.MAX_THREADS, _ => EmptySlot), ledger, origin, boot, rsp, 0);
    forall id | 0 <= id < S.MAX_THREADS ensures SlotOk(m, id) {
    }
  }

  /** Where it ends at once: a machine without frames cannot keep its promise when it creates a thread. */
  lemma NoFramesNoThread()
    ensures var m := Machine(S.RegisterBoot(S.Fresh, 0).0, seq(S.MAX_THREADS, _ => EmptySlot),
                             Ledger(Frames([], []), {}), PAGE_SIZE, Stack(16, 32), 16, 0);
            Inv(m) && S.Create(m.sched).1 == Ok(1) && !Inv(Start(m, false, false))
  {
    var l := Ledger(Frames([], []), {});
    NothingOut(l.frames);
    BootInv(l, PAGE_SIZE, Stack(16, 32), 16);
    var sched := S.RegisterBoot(S.Fresh, 0).0;
    var m := Machine(sched, seq(S.MAX_THREADS, _ => EmptySlot), l, PAGE_SIZE, Stack(16, 32), 16, 0);
    assert sched.states[1] == S.Unused && S.Lowest(sched.states, S.Unused) == Some(1);
    StartInvIff(m, false, false);
    if AllocContiguous(l.frames, STACK_PAGES).1.Some? {
      AllocMoves(l.frames, STACK_PAGES);
    }
  }

  ghost predicate Apart(a: Stack, b: Stack) {
    a.hi <= b.lo || b.hi <= a.lo
  }

  ghost predicate Live(m: Machine, id: nat) {
    id < |m.sched.states| && m.sched.states[id] != S.Unused
  }

  /**
   In every state of every run: the processor stands on the running thread's stack, every ready
   thread's saved frame lies in its own stack, live threads' stacks are issued frames and never
   overlap, and the user-mode entry stack is the running user thread's.
   */
  lemma OwnStacks(ms: seq<Machine>, steps: seq<Step>, n: nat)
    requires InRun(ms, steps) && Inv(ms[0]) && n <= |steps|
    ensures var m := ms[n];
            && StackOf(m, m.sched.current).Holds(m.rsp)
            && (forall id: nat :: Live(m, id) && m.sched.states[id] == S.Ready ==>
                                  StackOf(m, id).HoldsFrame(m.slots[id].rsp))
            && (forall i: nat, j: nat :: Live(m, i) && Live(m, j) && i != j ==> Apart(StackOf(m, i), StackOf(m, j)))
            && (forall id: nat :: Live(m, id) && m.slots[id].stack.Some? ==>
                                  IssuedRun(m.ledger.frames, m.slots[id].stack.value.start, STACK_PAGES))
            && (m.slots[m.sched.current].user ==> m.rsp0 == StackOf(m, m.sched.current).hi)
  {
    RunInv(ms, steps, n);
    var m := ms[n];
    forall i: nat, j: nat | Live(m, i) && Live(m, j) && i != j ensures Apart(StackOf(m, i), StackOf(m, j)) {
      LiveApart(m, i, j);
    }
    forall id: nat | Live(m, id) && m.slots[id].stack.Some?
      ensures IssuedRun(m.ledger.frames, m.slots[id].stack.value.start, STACK_PAGES)
    {
      StackIssued(m, id);
    }
    forall id: nat | Live(m, id) && m.sched.states[id] == S.Ready
      ensures StackOf(m, id).HoldsFrame(m.slots[id].rsp)
    {
      assert SlotOk(m, id);
    }
    assert SlotOk(m, m.sched.current);
  }

  lemma StackIssued(m: Machine, id: nat)
    requires Inv(m) && Live(m, id) && m.slots[id].stack.Some?
    ensures IssuedRun(m.ledger.frames, m.slots[id].stack.value.start, STACK_PAGES)
    ensures m.slots[id].stack.value in m.ledger.out && m.slots[id].stack.value.count == STACK_PAGES
  {
    assert SlotOk(m, id);
    OutIssued(m.ledger, m.slots[id].stack.value);
  }

  lemma LiveApart(m: Machine, i: nat, j: nat)
    requires Inv(m) && Live(m, i) && Live(m, j) && i != j
    ensures Apart(StackOf(m, i), StackOf(m, j))
  {
    assert SlotOk(m, i) && SlotOk(m, j);
    var a, b := m.slots[i].stack, m.slots[j].stack;
    if a.Some? && b.Some? {
      assert Disjoint(a.value, b.value);
    } else if a.Some? {
      BootApartFrom(m, i);
    } else {
      BootApartFrom(m, j);
    }
  }

  lemma BootApartFrom(m: Machine, id: nat)
    requires Inv(m) && Live(m, id) && m.slots[id].stack.Some?
    ensures Apart(StackOf(m, id), m.boot)
  {
    StackIssued(m, id);
    var s := m.slots[id].stack.value.start;
    assert forall i :: s <= i < s + STACK_PAGES ==> IsIssued(m.ledger.frames, i);
    assert IsIssued(m.ledger.frames, s) && IsIssued(m.ledger.frames, s + 1);
    assert IsIssued(m.ledger.frames, s + 2) && IsIssued(m.ledger.frames, s + 3);
  }

  // ----- creation in two steps -----

  predicate Reschedules(cause: Cause) {
    (cause.Timer? && cause.preempt) || cause.Yield? || cause.Exit?
  }

  /** Reaping leaves the queue, the current thread and everyone who has not exited alone, on any machine. */
  lemma {:induction false} ReapedKeeps(m: Machine)
    requires SwitchModel.Shaped(m)
    ensures var m' := Reaped(m);
            && m'.sched.queue == m.sched.queue && m'.sched.current == m.sched.current && m'.sched.idle == m.sched.idle
            && m'.rsp == m.rsp && m'.origin == m.origin && m'.boot == m.boot
            && (forall j :: 0 <= j < S.MAX_THREADS && m.sched.states[j] != S.Exited ==> KeptSlot(m, m', j))
            && (S.Inv(m.sched) ==> S.Inv(m'.sched))
    decreases ExitedBelow(m.sched.states, S.MAX_THREADS)
  {
    if ReapOne(m).None? {
    } else {
      ReapProgress(m);
      var m1 := ReapOne(m).value;
      if S.Inv(m.sched) {
        S.ReapInv(m.sched);
      }
      ReapedKeeps(m1);
      forall j | 0 <= j < S.MAX_THREADS && m.sched.states[j] != S.Exited ensures KeptSlot(m, Reaped(m), j) {
        assert KeptSlot(m, m1, j) && KeptSlot(m1, Reaped(m1), j);
      }
    }
  }

  ghost predicate KeptSlot(m: Machine, m': Machine, j: nat)
    requires SwitchModel.Shaped(m) && SwitchModel.Shaped(m') && j < S.MAX_THREADS
  {
    m'.slots[j] == m.slots[j] && m'.sched.states[j] == m.sched.states[j] && m'.sched.kinds[j] == m.sched.kinds[j]
  }

  /** Who is picked when `id` has just joined the queue behind `waiting`. */
  lemma Picked(sched: S.Sched, cause: Cause, waiting: seq<nat>, id: nat)
    requires S.Shaped(sched) && sched.current < S.MAX_THREADS && sched.queue == waiting + [id]
    requires id != sched.current && id !in waiting
    ensures var (after, d) := Decide(sched, cause);
            && (after.current == id <==> waiting == [] && Reschedules(cause))
            && (after.current == id ==> d == S.Switch(sched.current, id) && after.states[id] == S.Running
                                        && after.kinds == sched.kinds)
  {
    assert sched.queue[0] == if waiting == [] then id else waiting[0];
  }

  /** An interrupt's effect on the scheduler and on a slot that does not belong to the interrupted thread. */
  lemma Interrupted(m: Machine, cause: Cause, frame: nat, id: nat)
    requires SwitchModel.Shaped(m) && id < S.MAX_THREADS && id != m.sched.current && m.sched.states[id] != S.Exited
    ensures var reaped, m' := Reaped(m.(rsp := frame)), TakeInterrupt(m, cause, frame);
            && m'.sched == Decide(reaped.sched, cause).0 && |m'.slots| == |m.slots| && m'.slots[id] == m.slots[id]
            && (Decide(reaped.sched, cause).1 == S.Switch(m.sched.current, id) ==>
                  m'.rsp == if m.slots[id].rsp == 0 then frame else m.slots[id].rsp)
  {
    var entered := m.(rsp := frame);
    ReapedKeeps(entered);
    assert KeptSlot(entered, Reaped(entered), id);
    DecisionFrom(Reaped(entered).sched, cause);
  }

  lemma DecisionFrom(sched: S.Sched, cause: Cause)
    requires S.Shaped(sched)
    ensures var d := Decide(sched, cause).1; d.Switch? ==> d.from == sched.current
  {
  }

  /** The unfinished thread: queued last, its slot still empty. */
  lemma UnfinishedPicked(half: Machine, cause: Cause, frame: nat, waiting: seq<nat>, id: nat)
    requires SwitchModel.Shaped(half) && half.sched.queue == waiting + [id] && id !in waiting && id < S.MAX_THREADS
    requires id != half.sched.current && half.sched.states[id] == S.Ready && half.sched.kinds[id] == S.Normal
    requires half.slots[id] == EmptySlot
    ensures var after := TakeInterrupt(half, cause, frame);
            && (after.sched.current == id <==> waiting == [] && Reschedules(cause))
            && (after.sched.current == id ==> after.slots[id] == EmptySlot && after.rsp == frame
                                              && after.sched.states[id] == S.Running
                                              && after.sched.kinds[id] == S.Normal)
  {
    var entered := half.(rsp := frame);
    ReapedKeeps(entered);
    assert KeptSlot(entered, Reaped(entered), id);
    Picked(Reaped(entered).sched, cause, waiting, id);
    Interrupted(half, cause, frame, id);
  }

  /**
   The code enqueues the new thread before it has a stack. An interrupt that arrives meanwhile picks the
   unfinished thread exactly if nobody else was waiting and the interrupt reschedules; then it "runs" without
   a stack, on that of its predecessor.
   */
  lemma SplitCreation(m: Machine, cause: Cause, frame: nat)
    requires Inv(m) && S.Create(m.sched).1.Ok? && StackOf(m, m.sched.current).HoldsFrame(frame)
    ensures var id := S.Create(m.sched).1.value;
            var half := m.(sched := S.Create(m.sched).0);
            && SwitchModel.Shaped(half) && id in half.sched.queue
            && var after := TakeInterrupt(half, cause, frame);
               && (after.sched.current == id <==> m.sched.queue == [] && Reschedules(cause))
               && (after.sched.current == id ==>
                     after.slots[id].stack.None? && StackOf(m, m.sched.current).Holds(after.rsp) && !Inv(after))
  {
    var (sched, r) := S.Create(m.sched);
    S.CreateInv(m.sched);
    assert !S.Waiting(m.sched, r.value) && SlotOk(m, r.value);
    UnfinishedPicked(m.(sched := sched), cause, frame, m.sched.queue, r.value);
    var after := TakeInterrupt(m.(sched := sched), cause, frame);
    if after.sched.current == r.value && SwitchModel.Shaped(after) {
      assert !SlotOk(after, r.value);
    }
  }

  // ----- an exit that is refused -----

  /** Reaping clears the slot of everyone who has exited and gives the stack back, on any machine. */
  lemma {:induction false} ReapedClears(m: Machine, id: nat)
    requires SwitchModel.Shaped(m) && id < S.MAX_THREADS && m.sched.states[id] == S.Exited
    ensures var m' := Reaped(m);
            && m'.sched.states[id] == S.Unused && m'.slots[id] == EmptySlot
            && (m.slots[id].stack.Some? ==> m.slots[id].stack.value !in m'.ledger.out)
    decreases ExitedBelow(m.sched.states, S.MAX_THREADS)
  {
    ReapProgress(m);
    var m1 := ReapOne(m).value;
    if S.TakeReapable(m.sched).1 == Some(id) {
      ReapedKeeps(m1);
      assert KeptSlot(m1, Reaped(m1), id);
      OnlyGiven(m1);
    } else {
      ReapedClears(m1, id);
    }
  }

  lemma {:induction false} OnlyGiven(m: Machine)
    requires SwitchModel.Shaped(m)
    ensures Reaped(m).ledger.out <= m.ledger.out
    decreases ExitedBelow(m.sched.states, S.MAX_THREADS)
  {
    if ReapOne(m).None? {
    } else {
      ReapProgress(m);
      OnlyGiven(ReapOne(m).value);
    }
  }

  /**
   The next interrupt after an exit reaps the very thread it interrupted, clears its slot and gives the stack
   in use back, exactly if the exit was refused: nobody waited and there was no idle thread.
   */
  lemma RefusedExit(m: Machine, frame: nat, next: nat)
    requires Inv(m) && StackOf(m, m.sched.current).HoldsFrame(frame)
    ensures var after := TakeInterrupt(m, Exit, frame);
            && SwitchModel.Shaped(after)
            && var id, reaped := after.sched.current, Reaped(after.(rsp := next));
               && (reaped.sched.states[id] == S.Unused <==> m.sched.queue == [] && m.sched.idle == S.NO_THREAD)
               && (reaped.sched.states[id] == S.Unused ==>
                     && id == m.sched.current && after.rsp == frame && reaped.slots[id] == EmptySlot
                     && (m.slots[id].stack.Some? ==> m.slots[id].stack.value !in reaped.ledger.out))
  {
    EnteredInv(m, frame);
    var entered := m.(rsp := frame);
    ReapedInv(entered);
    var calm, after := Reaped(entered), TakeInterrupt(m, Exit, frame);
    if m.sched.queue != [] {
      assert m.sched.queue[0] in calm.sched.queue && S.Waiting(calm.sched, m.sched.queue[0]);
    }
    ExitLeaves(calm.sched);
    assert after.sched == S.ExitCurrent(calm.sched).0 && after.ledger == calm.ledger;
    var id := after.sched.current;
    if after.sched.states[id] == S.Exited {
      ReapedClears(after.(rsp := next), id);
      ReapedKeeps(after.(rsp := next));
    } else {
      ReapedKeeps(after.(rsp := next));
      assert KeptSlot(after.(rsp := next), Reaped(after.(rsp := next)), id);
    }
  }

  lemma ExitLeaves(s: S.Sched)
    requires S.Inv(s)
    ensures var (s', r) := S.ExitCurrent(s);
            && S.Shaped(s') && s'.current < S.MAX_THREADS
            && s'.states[s'.current] == (if r.Err? then S.Exited else S.Running)
            && (r.Err? <==> s.queue == [] && s.idle == S.NO_THREAD) && (r.Err? ==> s'.current == s.current)
            && (r.Ok? ==> r.value.Switch? && r.value.from == s.current && r.value.to == s'.current)
  {
    if s.queue != [] {
      assert s.queue[0] in s.queue && S.Waiting(s, s.queue[0]);
    }
  }

  // ----- a thread left queued without a stack -----

  predicate StepReschedules(step: Step) {
    step.Interrupt? && Reschedules(step.cause)
  }

  function Reschedulings(steps: seq<Step>, n: nat): nat
    requires n <= |steps|
  {
    if n == 0 then 0 else Reschedulings(steps, n - 1) + if StepReschedules(steps[n - 1]) then 1 else 0
  }

  ghost predicate ExitsSafe(m: Machine, step: Step) {
    step.Interrupt? && step.cause.Exit? ==> S.ExitSafe(m.sched)
  }

  /** Any machine steps, with or without the invariant, as long as exits are safe for the scheduler. */
  ghost predicate LooseRun(ms: seq<Machine>, steps: seq<Step>) {
    && |ms| == |steps| + 1
    && (forall n :: 0 <= n < |ms| ==> SwitchModel.Shaped(ms[n]))
    && forall n :: 0 <= n < |steps| ==> Stepped(ms, steps, n)
  }

  ghost predicate Stepped(ms: seq<Machine>, steps: seq<Step>, n: nat)
    requires n < |steps| && |ms| == |steps| + 1 && SwitchModel.Shaped(ms[n])
  {
    ExitsSafe(ms[n], steps[n]) && ms[n + 1] == Next(ms[n], steps[n])
  }

  /** The scheduler's op behind an interrupt. */
  function CauseOp(cause: Cause): R.Op
    requires !cause.Other?
  {
    match cause
    case Timer(preempt) => R.TickOp(preempt)
    case Yield => R.YieldOp
    case Exit => R.ExitOp
  }

  /** A decision runs the head of the queue exactly when it reschedules. */
  lemma DecideMoves(sched: S.Sched, cause: Cause)
    requires S.Inv(sched) && sched.queue != [] && (cause.Exit? ==> S.ExitSafe(sched))
    ensures var (after, d) := Decide(sched, cause);
            && S.Inv(after)
            && if Reschedules(cause)
               then after.current == sched.queue[0] && sched.queue[1..] <= after.queue
               else after.current == sched.current && sched.queue <= after.queue
  {
    Decided(sched, cause);
    if !cause.Other? {
      R.QueueStep(sched, CauseOp(cause));
    }
  }

  /** Thread `id` waits at place `k` of the queue with this slot. */
  ghost predicate Stands(m: Machine, id: nat, k: nat, slot: Slot) {
    && S.Inv(m.sched) && |m.slots| == S.MAX_THREADS
    && k < |m.sched.queue| && m.sched.queue[k] == id && id < S.MAX_THREADS && m.slots[id] == slot
  }

  /** And after a step: one place up exactly when the step reschedules, running when it stood first. */
  ghost predicate MovedUp(m: Machine, id: nat, k: nat, slot: Slot, turn: bool) {
    if !turn then Stands(m, id, k, slot)
    else if k > 0 then Stands(m, id, k - 1, slot)
    else |m.slots| == S.MAX_THREADS && m.sched.current == id < S.MAX_THREADS && m.slots[id] == slot
  }

  lemma QueuedSpawn(m: Machine, idle: bool, user: bool, id: nat, k: nat, slot: Slot)
    requires SwitchModel.Shaped(m) && Stands(m, id, k, slot)
    ensures Stands(Start(m, idle, user), id, k, slot)
  {
    Enrolled(m, idle);
    assert id in m.sched.queue && S.Waiting(m.sched, id);
  }

  lemma QueuedStep(m: Machine, step: Step, id: nat, k: nat, slot: Slot)
    requires SwitchModel.Shaped(m) && ExitsSafe(m, step) && Stands(m, id, k, slot)
    ensures MovedUp(Next(m, step), id, k, slot, StepReschedules(step))
  {
    match step {
      case Spawn(user) => QueuedSpawn(m, false, user, id, k, slot);
      case SpawnIdle => QueuedSpawn(m, true, false, id, k, slot);
      case Move(rsp) =>
      case Traffic(op) =>
      case Interrupt(cause, frame) => QueuedInterrupt(m, cause, frame, id, k, slot);
    }
  }

  lemma QueuedInterrupt(m: Machine, cause: Cause, frame: nat, id: nat, k: nat, slot: Slot)
    requires SwitchModel.Shaped(m) && (cause.Exit? ==> S.ExitSafe(m.sched)) && Stands(m, id, k, slot)
    ensures MovedUp(TakeInterrupt(m, cause, frame), id, k, slot, Reschedules(cause))
  {
    var entered := m.(rsp := frame);
    assert id in m.sched.queue && S.Waiting(m.sched, id);
    ReapedKeeps(entered);
    DecideMoves(Reaped(entered).sched, cause);
    Interrupted(m, cause, frame, id);
  }

  lemma {:induction false} QueuedMovesUp(ms: seq<Machine>, steps: seq<Step>, id: nat, k: nat, slot: Slot, n: nat)
    requires LooseRun(ms, steps) && n <= |steps| && Stands(ms[0], id, k, slot) && Reschedulings(steps, n) <= k
    ensures Stands(ms[n], id, k - Reschedulings(steps, n), slot)
  {
    if n == 0 {
    } else {
      QueuedMovesUp(ms, steps, id, k, slot, n - 1);
      StandsNext(ms, steps, id, k - Reschedulings(steps, n - 1), slot, n);
    }
  }

  lemma StandsNext(ms: seq<Machine>, steps: seq<Step>, id: nat, k: nat, slot: Slot, n: nat)
    requires LooseRun(ms, steps) && 0 < n <= |steps| && Stands(ms[n - 1], id, k, slot)
    ensures MovedUp(ms[n], id, k, slot, StepReschedules(steps[n - 1]))
  {
    assert Stepped(ms, steps, n - 1);
    QueuedStep(ms[n - 1], steps[n - 1], id, k, slot);
  }

  /**
   A thread that creation left queued because no stack could be had behind `k` others is current at exactly the
   `k + 1`-th rescheduling interrupt, still without a stack.
   */
  lemma StacklessRuns(m: Machine, user: bool, ms: seq<Machine>, steps: seq<Step>, n: nat)
    requires Inv(m) && S.Create(m.sched).1.Ok? && AllocContiguous(m.ledger.frames, STACK_PAGES).1.None?
    requires LooseRun(ms, steps) && ms[0] == Start(m, false, user) && n < |steps|
    requires Reschedulings(steps, n) == |m.sched.queue| && StepReschedules(steps[n])
    ensures var id := S.Create(m.sched).1.value;
            && id < |ms[n + 1].slots| && ms[n + 1].sched.current == id && ms[n + 1].slots[id].stack.None?
            && forall j :: 0 <= j <= n ==> ms[j].sched.current != id
  {
    var id, k := S.Create(m.sched).1.value, |m.sched.queue|;
    S.CreateInv(m.sched);
    assert SlotOk(m, id) && Stands(ms[0], id, k, EmptySlot);
    QueuedMovesUp(ms, steps, id, k, EmptySlot, n);
    assert Stepped(ms, steps, n);
    QueuedStep(ms[n], steps[n], id, 0, EmptySlot);
    forall j | 0 <= j <= n ensures ms[j].sched.current != id {
      CountGrows(steps, j, n);
      QueuedMovesUp(ms, steps, id, k, EmptySlot, j);
      R.NoOverflow(ms[j].sched);
    }
  }

  lemma {:induction false} CountGrows(steps: seq<Step>, j: nat, n: nat)
    requires j <= n <= |steps|
    ensures Reschedulings(steps, j) <= Reschedulings(steps, n)
    decreases n
  {
    if j == n {
    } else {
      CountGrows(steps, j, n - 1);
    }
  }
}

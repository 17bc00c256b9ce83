/**
 Context switching as a step system: the scheduler, each thread's slot, the frame allocator, the
 stack pointer and the stack the processor loads when it leaves user mode.
 */
module SwitchModel {
  import opened FrameModel
  import opened MemoryMap
  import S = SchedModel
  import opened Wrappers

  const STACK_PAGES: nat := 4
  // 22 eight-byte registers.
  const FRAME_SIZE: nat := 176

  datatype Stack = Stack(lo: nat, hi: nat) {
    predicate Holds(p: nat) { lo <= p < hi }

    predicate HoldsFrame(p: nat) { lo <= p && p + FRAME_SIZE <= hi }
  }

  datatype Slot = Slot(stack: Option<Run>, rsp: nat, user: bool, top: nat)

  const EmptySlot: Slot := Slot(None, 0, false, 0)

  /** `origin` is the address of frame 0, `boot` the stack the kernel started on. */
  datatype Machine = Machine(sched: S.Sched, slots: seq<Slot>, ledger: Ledger, origin: nat, boot: Stack,
                             rsp: nat, rsp0: nat)

  datatype Cause = Timer(preempt: bool) | Yield | Exit | Other

  datatype Step =
    | Spawn(user: bool)  // thread creation, taken as one step
    | SpawnIdle
    | Interrupt(cause: Cause, frame: nat)
    | Move(rsp: nat)     // the running thread uses its stack
    | Traffic(op: Op)    // other kernel code takes frames or gives them back

  function RunStack(origin: nat, run: Run): Stack {
    Stack(origin + run.start * PAGE_SIZE, origin + (run.start + run.count) * PAGE_SIZE)
  }

  function SlotStack(m: Machine, slot: Slot): Stack {
    if slot.stack.Some? then RunStack(m.origin, slot.stack.value) else m.boot
  }

  ghost predicate Shaped(m: Machine) {
    S.Shaped(m.sched) && |m.slots| == S.MAX_THREADS && m.sched.current < S.MAX_THREADS && Balanced(m.ledger)
  }

  ghost function StackOf(m: Machine, id: nat): Stack
    requires id < |m.slots|
  {
    SlotStack(m, m.slots[id])
  }

  // ----- steps -----

  /** Gives the stack of a reaped thread back and clears its slot. */
  ghost function Release(m: Machine, id: nat): Machine
    requires Balanced(m.ledger) && id < |m.slots|
  {
    var stack := m.slots[id].stack;
    var ledger := if stack.Some? then FrameModel.Step(m.ledger, FreeOp(stack.value)) else m.ledger;
    m.(slots := m.slots[id := EmptySlot], ledger := ledger)
  }

  /** One turn of the reaping loop, if there is someone to reap. */
  ghost function ReapOne(m: Machine): Option<Machine>
    requires Shaped(m)
  {
    var (sched, id) := S.TakeReapable(m.sched);
    if id.None? then None else Some(Release(m.(sched := sched), id.value))
  }

  function ExitedBelow(states: seq<S.ThreadState>, n: nat): nat
    requires n <= |states|
  {
    if n == 0 then 0 else ExitedBelow(states, n - 1) + if states[n - 1] == S.Exited then 1 else 0
  }

  lemma {:induction false} OneFewer(states: seq<S.ThreadState>, id: nat, n: nat)
    requires id < |states| && states[id] == S.Exited && n <= |states|
    ensures ExitedBelow(states[id := S.Unused], n) == ExitedBelow(states, n) - if id < n then 1 else 0
  {
    if n == 0 {
    } else {
      OneFewer(states, id, n - 1);
    }
  }

  lemma ReapProgress(m: Machine)
    requires Shaped(m) && ReapOne(m).Some?
    ensures Shaped(ReapOne(m).value)
    ensures ExitedBelow(ReapOne(m).value.sched.states, S.MAX_THREADS) < ExitedBelow(m.sched.states, S.MAX_THREADS)
  {
    var id := S.TakeReapable(m.sched).1.value;
    OneFewer(m.sched.states, id, S.MAX_THREADS);
    if m.slots[id].stack.Some? {
      FreeBalanced(m.ledger, m.slots[id].stack.value);
    }
  }

  ghost function Reaped(m: Machine): Machine
    requires Shaped(m)
    ensures Shaped(Reaped(m))
    decreases ExitedBelow(m.sched.states, S.MAX_THREADS)
  {
    if ReapOne(m).None? then m else ReapProgress(m); Reaped(ReapOne(m).value)
  }

  function Decide(sched: S.Sched, cause: Cause): (S.Sched, S.Decision)
    requires S.Shaped(sched)
  {
    match cause
    case Timer(preempt) => S.OnTick(sched, preempt)
    case Yield => S.Rotate(sched)
    case Exit =>
      var (sched', r) := S.ExitCurrent(sched);
      (sched', if r.Ok? then r.value else S.Keep)
    case Other => (sched, S.Keep)
  }

  /** Saves the old frame, points the user-mode entry stack, and yields the new stack pointer. */
  function SwitchTo(m: Machine, from: nat, to: nat, frame: nat): (Machine, nat)
    requires from < |m.slots| && to < |m.slots|
  {
    var slots := m.slots[from := m.slots[from].(rsp := frame)];
    (m.(slots := slots, rsp0 := if slots[to].user then slots[to].top else m.rsp0), slots[to].rsp)
  }

  /** The interrupt handler; 0 means that the interrupted context goes on. */
  ghost function Handle(m: Machine, cause: Cause, frame: nat): (Machine, nat)
    requires Shaped(m)
  {
    var reaped := Reaped(m);
    match Decide(reaped.sched, cause)
    case (sched, Keep) => (reaped.(sched := sched), 0)
    case (sched, Switch(from, to)) =>
      if from < |m.slots| && to < |m.slots| then SwitchTo(reaped.(sched := sched), from, to, frame)
      else (reaped.(sched := sched), 0)
  }

  /** The common entry: the frame is on the stack when the handler runs, and its answer is the new stack. */
  ghost function TakeInterrupt(m: Machine, cause: Cause, frame: nat): Machine
    requires Shaped(m)
  {
    var (m', rsp) := Handle(m.(rsp := frame), cause, frame);
    if rsp == 0 then m' else m'.(rsp := rsp)
  }

  /** A fresh stack with its first frame at the top. */
  ghost function Prepare(m: Machine, id: nat, user: bool): Machine
    requires Balanced(m.ledger) && id < |m.slots|
  {
    var (f, s) := AllocContiguous(m.ledger.frames, STACK_PAGES);
    if s.None? then m
    else
      var run := Run(s.value, STACK_PAGES);
      var top := RunStack(m.origin, run).hi;
      var rsp := if top < FRAME_SIZE then 0 else top - FRAME_SIZE;
      m.(slots := m.slots[id := Slot(Some(run), rsp, user, top)],
         ledger := FrameModel.Step(m.ledger, AllocOp(STACK_PAGES)))
  }

  ghost function Enrol(m: Machine, idle: bool): (S.Sched, Result<nat, S.SchedError>)
    requires Shaped(m)
  {
    if idle then S.RegisterIdleAny(m.sched) else S.Create(m.sched)
  }

  ghost function Start(m: Machine, idle: bool, user: bool): Machine
    requires Shaped(m)
  {
    var (sched, id) := Enrol(m, idle);
    if id.Err? || id.value >= |m.slots| then m.(sched := sched) else Prepare(m.(sched := sched), id.value, user)
  }

  /** Some stack: the boot stack or one in a slot. */
  ghost predicate IsStack(m: Machine, stack: Stack) {
    stack == m.boot || exists id :: 0 <= id < |m.slots| && stack == StackOf(m, id)
  }

  /**
   What the surroundings guarantee: a thread stays inside whatever stack it is on, a processor in
   user mode starts at `rsp0`, exits are safe for the scheduler, creation finds its frames, and
   nobody gives back frames of a thread's stack.
   */
  ghost predicate Legal(m: Machine, step: Step)
    requires Shaped(m)
  {
    match step
    case Spawn(_) => AllocContiguous(m.ledger.frames, STACK_PAGES).1.Some?
    case SpawnIdle => AllocContiguous(m.ledger.frames, STACK_PAGES).1.Some?
    case Move(rsp) => forall stack :: IsStack(m, stack) && stack.Holds(m.rsp) ==> stack.Holds(rsp)
    case Traffic(op) => SparesStacks(m, op)
    case Interrupt(cause, frame) =>
      && (cause.Exit? ==> S.ExitSafe(m.sched))
      && if m.slots[m.sched.current].user then frame == m.rsp0 - FRAME_SIZE
         else forall stack :: IsStack(m, stack) && stack.Holds(m.rsp) ==> stack.HoldsFrame(frame)
  }

  /** The operation gives back no frame of any thread's stack. */
  ghost predicate SparesStacks(m: Machine, op: Op) {
    forall id :: 0 <= id < |m.slots| && m.slots[id].stack.Some? ==> Spares(op, m.slots[id].stack.value)
  }

  predicate Spares(op: Op, stack: Run) {
    match op
    case AllocOp(_) => true
    case FreeOp(run) => run != stack
    case FreeOneOp(i) => !(stack.start <= i < stack.start + stack.count)
  }

  ghost function Next(m: Machine, step: Step): Machine
    requires Shaped(m)
  {
    match step
    case Spawn(user) => Start(m, false, user)
    case SpawnIdle => Start(m, true, false)
    case Interrupt(cause, frame) => TakeInterrupt(m, cause, frame)
    case Move(rsp) => m.(rsp := rsp)
    case Traffic(op) => m.(ledger := FrameModel.Step(m.ledger, op))
  }

  // ----- the invariant -----

  ghost predicate SlotOk(m: Machine, id: nat)
    requires Shaped(m) && id < S.MAX_THREADS
  {
    var slot := m.slots[id];
    if m.sched.states[id] == S.Unused then slot == EmptySlot
    else
      && (if m.sched.kinds[id] == S.Boot then slot.stack.None? && !slot.user
          else slot.stack.Some? && slot.stack.value in m.ledger.out && slot.stack.value.count == STACK_PAGES
               && slot.top == StackOf(m, id).hi)
      && (m.sched.states[id] == S.Ready ==> StackOf(m, id).HoldsFrame(slot.rsp))
  }

  /** No frame that may be issued touches the boot stack. */
  ghost predicate BootApart(m: Machine) {
    && 0 < m.boot.lo < m.boot.hi && 0 < m.origin
    && forall i :: 0 <= i < |m.ledger.frames.allocatable| && m.ledger.frames.allocatable[i] ==>
                   m.boot.hi <= m.origin + i * PAGE_SIZE || m.origin + (i + 1) * PAGE_SIZE <= m.boot.lo
  }

  ghost predicate Inv(m: Machine) {
    && Shaped(m) && S.Inv(m.sched) && BootApart(m)
    && (forall id :: 0 <= id < S.MAX_THREADS ==> SlotOk(m, id))
    && (forall id :: 0 <= id < S.MAX_THREADS && m.sched.kinds[id] == S.Boot ==> id == 0)
    && (forall i, j :: 0 <= i < j < S.MAX_THREADS && m.slots[i].stack.Some? ==> m.slots[i].stack != m.slots[j].stack)
    && StackOf(m, m.sched.current).Holds(m.rsp)
    && (m.slots[m.sched.current].user ==> m.rsp0 == m.slots[m.sched.current].top)
  }
}

/** The machine side of the scheduler: the slot table, the reaping loop and the interrupt handler. */
module ContextSwitch {
  import opened FrameAllocator
  import opened FrameModel
  import opened MemoryMap
  import S = SchedModel
  import opened SchedRuns
  import opened Scheduler
  import opened SwitchModel
  import opened SwitchRuns
  import opened Wrappers

  datatype CreateError = NoFreeSlot | NoStack

  class Dispatcher {
    const scheduler: Scheduler
    const frames: FrameAllocator
    const slots: array<Slot>
    var rsp0: nat
    ghost const boot: Stack
    ghost var out: set<Run>

    ghost predicate Valid()
      reads this, scheduler, frames, frames.allocatable, frames.used
    {
      scheduler.Valid() && frames.Valid() && slots.Length == S.MAX_THREADS && Separate()
    }

    /** No two of the buffers are the same. */
    ghost predicate Separate() {
      var bitmaps: set<object> := {frames.allocatable, frames.used};
      var tables := {scheduler.states as object, scheduler.kinds as object, scheduler.queue as object};
      slots !in bitmaps && slots !in tables && bitmaps !! tables
    }

    /** The whole machine, with the stack pointer the processor has. */
    ghost function View(rsp: nat): Machine
      requires Valid()
      reads this, scheduler, scheduler.states, scheduler.kinds, scheduler.queue,
            frames, frames.allocatable, frames.used, slots
    {
      Machine(scheduler.Model(), slots[..], Ledger(frames.Model(), out), frames.Address(0), boot, rsp, rsp0)
    }

    /** Boot: an empty slot table, and the running code registered as thread 0. */
    constructor (frames: FrameAllocator, ghost boot: Stack, ghost out: set<Run>, ghost rsp: nat)
      requires frames.Valid() && Balanced(Ledger(frames.Model(), out)) && boot.Holds(rsp)
      requires BootApart(Machine(S.Fresh, [], Ledger(frames.Model(), out), frames.Address(0), boot, rsp, 0))
      ensures Valid() && Inv(View(rsp)) && this.frames == frames && this.boot == boot && this.out == out
      ensures scheduler.Model() == S.RegisterBoot(S.Fresh, 0).0
      ensures fresh(scheduler) && fresh(scheduler.states) && fresh(scheduler.kinds) && fresh(scheduler.queue)
      ensures fresh(slots)
    {
      this.frames, this.boot, this.out := frames, boot, out;
      scheduler := new Scheduler();
      slots := new Slot[S.MAX_THREADS](_ => EmptySlot);
      rsp0 := 0;
      new;
      var done := scheduler.RegisterBoot(0);
      BootInv(Ledger(frames.Model(), out), frames.Address(0), boot, rsp);
      assert slots[..] == seq(S.MAX_THREADS, _ => EmptySlot);
    }

    method Release(id: nat, ghost rsp: nat)
      requires Valid() && Balanced(View(rsp).ledger) && id < S.MAX_THREADS
      requires slots[id].stack.Some? ==> slots[id].stack.value in out
      modifies this`out, frames, frames.used, slots
      ensures Valid() && View(rsp) == SwitchModel.Release(old(View(rsp)), id)
    {
      var stack := slots[id].stack;
      slots[id] := slots[id].(stack := None);
      if stack.Some? {
        var run := stack.value;
        OutIssued(View(rsp).ledger, run);
        var range := PhysRange(frames.Address(run.start), run.count * PAGE_SIZE);
        assert frames.RunOf(range) == run;
        ghost var f := frames.Model();
        var freed, n := frames.FreeFrames(range);
        frames.WholeRange(f, frames.Model(), range, freed.Ok?, n);
        out := out - {run};
      }
      slots[id] := EmptySlot;
    }

    /** One turn of the loop below. */
    method ReapStep(ghost rsp: nat) returns (more: bool)
      requires Valid() && Inv(View(rsp))
      modifies this`out, scheduler.states, scheduler.kinds, frames, frames.used, slots
      ensures Valid()
      ensures match ReapOne(old(View(rsp)))
              case None => !more && View(rsp) == old(View(rsp))
              case Some(m) => more && View(rsp) == m
    {
      ghost var m := View(rsp);
      var id := scheduler.TakeReapable();
      more := id.Some?;
      if more {
        assert SlotOk(m, id.value);
        Release(id.value, rsp);
      }
    }

    method ReapExited(ghost rsp: nat)
      requires Valid() && Inv(View(rsp))
      modifies this`out, scheduler.states, scheduler.kinds, frames, frames.used, slots
      ensures Valid() && Inv(View(rsp)) && View(rsp) == Reaped(old(View(rsp)))
    {
      ghost var target := Reaped(View(rsp));
      var more := true;
      while more
        invariant Valid() && Inv(View(rsp))
        invariant target == if more then Reaped(View(rsp)) else View(rsp)
        decreases more, ExitedBelow(View(rsp).sched.states, S.MAX_THREADS)
      {
        ghost var m := View(rsp);
        more := ReapStep(rsp);
        if more {
          ReapOneInv(m);
          ReapProgress(m);
        }
      }
    }

    method SwitchTo(from: nat, to: nat, frame: nat, ghost rsp: nat) returns (next: nat)
      requires Valid() && from < S.MAX_THREADS && to < S.MAX_THREADS
      modifies this`rsp0, slots
      ensures Valid() && (View(rsp), next) == SwitchModel.SwitchTo(old(View(rsp)), from, to, frame)
      ensures slots[from].rsp == frame && next == if to == from then frame else old(slots[..])[to].rsp
    {
      slots[from] := slots[from].(rsp := frame);
      if slots[to].user {
        rsp0 := slots[to].top;
      }
      next := slots[to].rsp;
    }

    method Decide(cause: Cause) returns (d: S.Decision)
      requires Valid() && S.Inv(scheduler.Model())
      modifies scheduler, scheduler.states, scheduler.queue
      ensures Valid() && (scheduler.Model(), d) == SwitchModel.Decide(old(scheduler.Model()), cause)
    {
      S.InvSane(scheduler.Model());
      SaneRoom(scheduler.Model());
      match cause {
        case Timer(preempt) => d := scheduler.OnTick(preempt);
        case Yield => d := scheduler.Rotate();
        case Exit =>
          var r := scheduler.ExitCurrent();
          d := if r.Ok? then r.value else S.Keep;
        case Other => d := S.Keep;
      }
    }

    /** Decide and switch, once the exited threads are gone. */
    method Dispatch(cause: Cause, frame: nat) returns (next: nat)
      requires Valid() && Inv(View(frame)) && (cause.Exit? ==> S.ExitSafe(scheduler.Model()))
      requires StackOf(View(frame), scheduler.current).HoldsFrame(frame)
      modifies this`rsp0, scheduler, scheduler.states, scheduler.queue, slots
      ensures Valid() && Inv(View(if next == 0 then frame else next))
      ensures match SwitchModel.Decide(old(scheduler.Model()), cause)
              case (sched, Keep) => next == 0 && View(frame) == old(View(frame)).(sched := sched)
              case (sched, Switch(from, to)) =>
                && from < S.MAX_THREADS && to < S.MAX_THREADS
                && (View(frame), next) == SwitchModel.SwitchTo(old(View(frame)).(sched := sched), from, to, frame)
    {
      ghost var reaped := View(frame);
      Decided(reaped.sched, cause);
      var d := Decide(cause);
      if d.Keep? {
        KeepInv(reaped, View(frame).sched);
        next := 0;
      } else {
        SwitchInv(reaped, cause, frame);
        next := SwitchTo(d.from, d.to, frame, frame);
      }
    }

    /** Reap, decide, switch; a non-zero answer is the frame to continue from, on the thread's own stack. */
    method IrqHandler(cause: Cause, frame: nat) returns (next: nat)
      requires Valid() && Inv(View(frame)) && (cause.Exit? ==> S.ExitSafe(scheduler.Model()))
      requires StackOf(View(frame), scheduler.current).HoldsFrame(frame)
      modifies this, scheduler, scheduler.states, scheduler.kinds, scheduler.queue, frames, frames.used, slots
      ensures Valid() && (View(frame), next) == Handle(old(View(frame)), cause, frame)
      ensures Inv(View(if next == 0 then frame else next))
      ensures Continues(old(View(frame)), View(if next == 0 then frame else next), frame)
    {
      HandlerContinues(View(frame), cause, frame);
      ReapedInv(View(frame));
      ReapExited(frame);
      next := Dispatch(cause, frame);
    }

    /** A stack of its own, with the first frame at its top. */
    method Prepare(id: nat, user: bool, ghost rsp: nat) returns (ok: bool)
      requires Valid() && Balanced(View(rsp).ledger) && id < S.MAX_THREADS
      modifies this`out, frames, frames.used, slots
      ensures Valid() && View(rsp) == SwitchModel.Prepare(old(View(rsp)), id, user)
      ensures ok <==> AllocContiguous(old(View(rsp)).ledger.frames, STACK_PAGES).1.Some?
    {
      var range := frames.Take(STACK_PAGES);
      ok := range.Some?;
      if ok {
        var run := Run(range.value.start / PAGE_SIZE - frames.firstFrame, STACK_PAGES);
        var top := range.value.start + range.value.len;
        slots[id] := Slot(Some(run), if top < FRAME_SIZE then 0 else top - FRAME_SIZE, user, top);
        out := out + {run};
      }
    }

    /** Frames for another use: the user stack. */
    method TakeFrames(count: nat, ghost rsp: nat) returns (r: Option<PhysRange>)
      requires Valid() && Inv(View(rsp))
      modifies this`out, frames, frames.used
      ensures Valid() && View(rsp) == old(View(rsp)).(ledger := FrameModel.Step(old(View(rsp)).ledger, AllocOp(count)))
      ensures Inv(View(rsp)) && frames.Model().allocatable == old(frames.Model().allocatable)
      ensures r.Some? <==> AllocContiguous(old(frames.Model()), count).1.Some?
      ensures r.Some? ==>
                && r.value.len == count * PAGE_SIZE
                && exists start :: r.value.start == frames.Address(start) && FreeRun(old(frames.Model()), start, count)
    {
      ghost var m := View(rsp);
      TrafficInv(m, AllocOp(count));
      r := frames.Take(count);
      if r.Some? {
        AllocMoves(m.ledger.frames, count);
        out := out + {Run(AllocContiguous(m.ledger.frames, count).1.value, count)};
      }
    }

    /** Such frames come back whole. */
    method GiveFrames(range: PhysRange, ghost rsp: nat) returns (r: Result<Unit, FreeError>)
      requires Valid() && Inv(View(rsp)) && frames.RunOf(range) in out
      requires range == PhysRange(frames.Address(frames.RunOf(range).start), frames.RunOf(range).count * PAGE_SIZE)
      requires SparesStacks(View(rsp), FreeOp(frames.RunOf(range)))
      modifies this`out, frames, frames.used
      ensures Valid()
      ensures var m := old(View(rsp));
              View(rsp) == m.(ledger := FrameModel.Step(m.ledger, FreeOp(frames.RunOf(range))))
      ensures Inv(View(rsp)) && r.Ok?
    {
      ghost var m, run := View(rsp), frames.RunOf(range);
      TrafficInv(m, FreeOp(run));
      OutIssued(m.ledger, run);
      ghost var n;
      r, n := frames.FreeFrames(range);
      frames.WholeRange(m.ledger.frames, frames.Model(), range, r.Ok?, n);
      out := out - {run};
    }

    /** Enqueues first, then looks for a stack; without one the thread stays in the queue. */
    method Create(idle: bool, user: bool, ghost rsp: nat) returns (r: Result<nat, CreateError>)
      requires Valid() && Inv(View(rsp))
      modifies this`out, scheduler, scheduler.states, scheduler.kinds, scheduler.queue, frames, frames.used, slots
      ensures Valid() && View(rsp) == Start(old(View(rsp)), idle, user)
      ensures var id := Enrol(old(View(rsp)), idle).1;
              r == if id.Err? then Err(NoFreeSlot)
                   else if AllocContiguous(old(View(rsp)).ledger.frames, STACK_PAGES).1.None? then Err(NoStack)
                   else Ok(id.value)
      ensures Inv(View(rsp)) <==> r != Err(NoStack)
    {
      ghost var m := View(rsp);
      StartInvIff(m, idle, user);
      S.InvSane(m.sched);
      SaneRoom(m.sched);
      Enrolled(m, idle);
      var id;
      if idle {
        id := scheduler.RegisterIdleAny();
      } else {
        id := scheduler.Create();
      }
      if id.Err? {
        return Err(NoFreeSlot);
      }
      var ok := Prepare(id.value, user, rsp);
      if !ok {
        return Err(NoStack);
      }
      return Ok(id.value);
    }
  }
}

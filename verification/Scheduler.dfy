/** The scheduler as the kernel runs it: fixed arrays and a ring-buffer ready queue. */
module Scheduler {
  import opened SchedModel
  import opened SchedRuns
  import opened Wrappers

  /** Position `k` of a ring that begins at `head`. */
  function Slot(head: nat, k: nat): (i: nat)
    requires head < MAX_THREADS && k <= MAX_THREADS
    ensures i == if head + k < MAX_THREADS then head + k else head + k - MAX_THREADS
  {
    (head + k) % MAX_THREADS
  }

  function Contents(ring: seq<nat>, head: nat, len: nat): seq<nat>
    requires |ring| == MAX_THREADS && head < MAX_THREADS && len <= MAX_THREADS
  {
    seq(len, k requires 0 <= k < len => ring[Slot(head, k)])
  }

  lemma PushRing(ring: seq<nat>, head: nat, len: nat, id: nat)
    requires |ring| == MAX_THREADS && head < MAX_THREADS && len < MAX_THREADS
    ensures Contents(ring[Slot(head, len) := id], head, len + 1) == Contents(ring, head, len) + [id]
  {
  }

  lemma PopRing(ring: seq<nat>, head: nat, len: nat)
    requires |ring| == MAX_THREADS && head < MAX_THREADS && 0 < len <= MAX_THREADS
    ensures Contents(ring[head := NO_THREAD], Slot(head, 1), len - 1) == Contents(ring, head, len)[1..]
  {
  }

  class Scheduler {
    const states: array<ThreadState>
    const kinds: array<ThreadKind>
    const queue: array<nat>
    var head: nat
    var len: nat
    var current: nat
    var idle: nat
    var ticks: nat
    var switches: nat

    ghost predicate Valid()
      reads this
    {
      && states.Length == kinds.Length == queue.Length == MAX_THREADS
      && head < MAX_THREADS && len <= MAX_THREADS
    }

    ghost function Model(): Sched
      requires Valid()
      reads this, states, kinds, queue
    {
      Sched(states[..], kinds[..], Contents(queue[..], head, len), current, idle, ticks, switches)
    }

    constructor ()
      ensures Valid() && fresh(states) && fresh(kinds) && fresh(queue)
      ensures Model() == Fresh
    {
      states := new ThreadState[MAX_THREADS](i => Unused);
      kinds := new ThreadKind[MAX_THREADS](i => Normal);
      queue := new nat[MAX_THREADS](i => NO_THREAD);
      head, len, current, idle, ticks, switches := 0, 0, NO_THREAD, NO_THREAD, 0, 0;
      new;
      assert states[..] == Fresh.states && kinds[..] == Fresh.kinds;
    }

    /** Appends at the tail; the ring must not be full, which `NoOverflow` guarantees. */
    method Enqueue(id: nat)
      requires Valid() && len < MAX_THREADS
      modifies `len, queue
      ensures Valid() && Model() == old(Model()).(queue := old(Model()).queue + [id]) && len == old(len) + 1
    {
      PushRing(queue[..], head, len, id);
      queue[Slot(head, len)] := id;
      len := len + 1;
    }

    method Dequeue() returns (id: nat)
      requires Valid() && len > 0
      modifies `head, `len, queue
      ensures Valid() && id == old(Model()).queue[0]
      ensures Model() == old(Model()).(queue := old(Model()).queue[1..])
    {
      PopRing(queue[..], head, len);
      id := queue[head];
      queue[head] := NO_THREAD;
      head := Slot(head, 1);
      len := len - 1;
    }

    /** The lowest slot in the given state. */
    method Find(wanted: ThreadState) returns (r: Option<nat>)
      requires Valid()
      ensures r == Lowest(states[..], wanted)
    {
      for i := 0 to MAX_THREADS
        invariant LowestFrom(states[..], wanted, 0) == LowestFrom(states[..], wanted, i)
      {
        if states[i] == wanted {
          return Some(i);
        }
      }
      return None;
    }

    method RegisterBoot(id: nat) returns (r: Result<Unit, SchedError>)
      requires Valid()
      modifies this, states, kinds
      ensures Valid() && (Model(), r) == SchedModel.RegisterBoot(old(Model()), id)
    {
      if id >= MAX_THREADS {
        return Err(InvalidId(id));
      }
      states[id], kinds[id] := Running, Boot;
      current := id;
      return Ok(Unit);
    }

    method RegisterIdle(id: nat) returns (r: Result<Unit, SchedError>)
      requires Valid()
      modifies this, states, kinds
      ensures Valid() && (Model(), r) == SchedModel.RegisterIdle(old(Model()), id)
    {
      if id >= MAX_THREADS {
        return Err(InvalidId(id));
      }
      if idle != NO_THREAD {
        return Err(IdleAlreadyRegistered);
      }
      if states[id] != Unused {
        return Err(InvalidId(id));
      }
      states[id], kinds[id] := Ready, Idle;
      idle := id;
      return Ok(Unit);
    }

    method RegisterIdleAny() returns (r: Result<nat, SchedError>)
      requires Valid()
      modifies this, states, kinds
      ensures Valid() && (Model(), r) == SchedModel.RegisterIdleAny(old(Model()))
    {
      var slot := Find(Unused);
      if slot.None? {
        return Err(NoFreeSlot);
      }
      var done := RegisterIdle(slot.value);
      if done.Err? {
        return Err(done.error);
      }
      return Ok(slot.value);
    }

    method Create() returns (r: Result<nat, SchedError>)
      requires Valid() && RoomToCreate(Model())
      modifies this, states, kinds, queue
      ensures Valid() && (Model(), r) == SchedModel.Create(old(Model()))
    {
      var slot := Find(Unused);
      if slot.None? {
        return Err(NoFreeSlot);
      }
      var id := slot.value;
      states[id], kinds[id] := Ready, Normal;
      Enqueue(id);
      return Ok(id);
    }

    method Rotate() returns (d: Decision)
      requires Valid() && RoomToRotate(Model())
      modifies this, states, queue
      ensures Valid() && (Model(), d) == SchedModel.Rotate(old(Model()))
    {
      ghost var s := Model();
      var from := current;
      if from == NO_THREAD {
        return Keep;
      }
      var isIdle := kinds[from] == Idle;
      if len == 0 {
        return Keep;
      }
      states[from] := Ready;
      if !isIdle {
        Enqueue(from);
      }
      assert (s.queue + [from])[1..] == s.queue[1..] + [from] && s.queue[1..] + [] == s.queue[1..];
      var to := Dequeue();
      states[to] := Running;
      current := to;
      switches := switches + 1;
      return Switch(from, to);
    }

    /** A clock interrupt; `reschedule` separates a ticking clock from a preempting one. */
    method OnTick(reschedule: bool) returns (d: Decision)
      requires Valid() && RoomToRotate(Model())
      modifies this, states, queue
      ensures Valid() && (Model(), d) == SchedModel.OnTick(old(Model()), reschedule)
    {
      ticks := ticks + 1;
      if !reschedule {
        return Keep;
      }
      d := Rotate();
    }

    method ExitCurrent() returns (r: Result<Decision, SchedError>)
      requires Valid() && Shaped(Model())
      modifies this, states, queue
      ensures Valid() && (Model(), r) == SchedModel.ExitCurrent(old(Model()))
      ensures old(Inv(Model()) && ExitSafe(Model())) ==> r.Ok? && Inv(Model()) && Gone(old(Model()), Model())
    {
      if Inv(Model()) && ExitSafe(Model()) {
        ExitInv(Model());
        ExitOutcome(Model());
      }
      var from := current;
      if from == NO_THREAD {
        return Err(NoCurrentThread);
      }
      states[from] := Exited;
      if len > 0 {
        var to := Dequeue();
        states[to] := Running;
        current := to;
      } else if idle != NO_THREAD {
        states[idle] := Running;
        current := idle;
      } else {
        return Err(NothingToRun);
      }
      switches := switches + 1;
      return Ok(Switch(from, current));
    }

    method TakeReapable() returns (r: Option<nat>)
      requires Valid()
      modifies states, kinds
      ensures Valid() && (Model(), r) == SchedModel.TakeReapable(old(Model()))
    {
      r := Find(Exited);
      if r.Some? {
        states[r.value], kinds[r.value] := Unused, Normal;
      }
    }
  }
}

/**
 The round-robin scheduler as a pure state machine, and what it promises over
 every legal run.  `Scheduler` refines these functions with a ring buffer.
 */
module SchedModel {
  import opened Wrappers

  const MAX_THREADS: nat := 16
  const NO_THREAD: nat := 0xFFFF_FFFF_FFFF_FFFF

  datatype ThreadState = Unused | Ready | Running | Exited

  datatype ThreadKind = Normal | Idle | Boot

  datatype SchedError = NoFreeSlot | InvalidId(id: nat) | NoCurrentThread | IdleAlreadyRegistered | NothingToRun

  datatype Decision = Keep | Switch(from: nat, to: nat)

  /** `queue` is the ready queue from head to tail. */
  datatype Sched = Sched(states: seq<ThreadState>, kinds: seq<ThreadKind>, queue: seq<nat>,
                         current: nat, idle: nat, ticks: nat, switches: nat)

  const Fresh: Sched :=
    Sched(seq(MAX_THREADS, i => Unused), seq(MAX_THREADS, i => Normal), [], NO_THREAD, NO_THREAD, 0, 0)

  ghost predicate Shaped(s: Sched) {
    && |s.states| == |s.kinds| == MAX_THREADS
    && (s.current == NO_THREAD || s.current < MAX_THREADS)
    && (s.idle == NO_THREAD || s.idle < MAX_THREADS)
    && (forall k :: 0 <= k < |s.queue| ==> s.queue[k] < MAX_THREADS)
  }

  // ----- operations -----

  /** The lowest slot in the given state. */
  function LowestFrom(states: seq<ThreadState>, wanted: ThreadState, i: nat): (r: Option<nat>)
    requires i <= |states|
    ensures r.Some? ==> i <= r.value < |states| && states[r.value] == wanted
    ensures forall j :: i <= j < (if r.Some? then r.value else |states|) ==> states[j] != wanted
    decreases |states| - i
  {
    if i == |states| then None
    else if states[i] == wanted then Some(i)
    else LowestFrom(states, wanted, i + 1)
  }

  function Lowest(states: seq<ThreadState>, wanted: ThreadState): Option<nat> {
    LowestFrom(states, wanted, 0)
  }

  function RegisterBoot(s: Sched, id: nat): (Sched, Result<Unit, SchedError>)
    requires |s.states| == |s.kinds| == MAX_THREADS
  {
    if id >= MAX_THREADS then (s, Err(InvalidId(id)))
    else (s.(states := s.states[id := Running], kinds := s.kinds[id := Boot], current := id), Ok(Unit))
  }

  function RegisterIdle(s: Sched, id: nat): (Sched, Result<Unit, SchedError>)
    requires |s.states| == |s.kinds| == MAX_THREADS
  {
    if id >= MAX_THREADS then (s, Err(InvalidId(id)))
    else if s.idle != NO_THREAD then (s, Err(IdleAlreadyRegistered))
    else if s.states[id] != Unused then (s, Err(InvalidId(id)))
    else (s.(states := s.states[id := Ready], kinds := s.kinds[id := Idle], idle := id), Ok(Unit))
  }

  function RegisterIdleAny(s: Sched): (Sched, Result<nat, SchedError>)
    requires |s.states| == |s.kinds| == MAX_THREADS
  {
    match Lowest(s.states, Unused)
    case None => (s, Err(NoFreeSlot))
    case Some(id) =>
      match RegisterIdle(s, id)
      case (s', Ok(_)) => (s', Ok(id))
      case (s', Err(e)) => (s', Err(e))
  }

  function Create(s: Sched): (Sched, Result<nat, SchedError>)
    requires |s.states| == |s.kinds| == MAX_THREADS
  {
    match Lowest(s.states, Unused)
    case None => (s, Err(NoFreeSlot))
    case Some(id) =>
      (s.(states := s.states[id := Ready], kinds := s.kinds[id := Normal], queue := s.queue + [id]), Ok(id))
  }

  function Rotate(s: Sched): (Sched, Decision)
    requires Shaped(s)
  {
    if s.current == NO_THREAD || s.queue == [] then (s, Keep)
    else
      var from, to := s.current, s.queue[0];
      var rejoining := if s.kinds[from] == Idle then [] else [from];
      (s.(states := s.states[from := Ready][to := Running], queue := s.queue[1..] + rejoining,
          current := to, switches := s.switches + 1), Switch(from, to))
  }

  function OnTick(s: Sched, reschedule: bool): (Sched, Decision)
    requires Shaped(s)
  {
    var ticked := s.(ticks := s.ticks + 1);
    if reschedule then Rotate(ticked) else (ticked, Keep)
  }

  function ExitCurrent(s: Sched): (Sched, Result<Decision, SchedError>)
    requires Shaped(s)
  {
    if s.current == NO_THREAD then (s, Err(NoCurrentThread))
    else
      var stopped := s.(states := s.states[s.current := Exited]);
      if s.queue != [] then
        var to := s.queue[0];
        (stopped.(states := stopped.states[to := Running], queue := s.queue[1..],
                  current := to, switches := s.switches + 1), Ok(Switch(s.current, to)))
      else if s.idle != NO_THREAD then
        (stopped.(states := stopped.states[s.idle := Running], current := s.idle, switches := s.switches + 1),
         Ok(Switch(s.current, s.idle)))
      else (stopped, Err(NothingToRun))
  }

  function TakeReapable(s: Sched): (Sched, Option<nat>)
    requires |s.states| == |s.kinds| == MAX_THREADS
  {
    match Lowest(s.states, Exited)
    case None => (s, None)
    case Some(id) => (s.(states := s.states[id := Unused], kinds := s.kinds[id := Normal]), Some(id))
  }

  // ----- the invariant -----

  ghost predicate Distinct(q: seq<nat>) {
    q == [] || (q[0] !in q[1..] && Distinct(q[1..]))
  }

  ghost predicate Waiting(s: Sched, id: nat) {
    id < |s.states| && s.states[id] == Ready && id != s.idle
  }

  /**
   The queue holds exactly the ready threads other than idle, once each; the current thread and
   no other is running; idle is ready or running and only it has the idle kind.
   */
  ghost predicate Inv(s: Sched) {
    && Shaped(s)
    && s.current < MAX_THREADS
    && (forall id :: 0 <= id < MAX_THREADS ==> (s.states[id] == Running <==> id == s.current))
    && (forall id :: 0 <= id < MAX_THREADS ==> (s.kinds[id] == Idle <==> id == s.idle))
    && (s.idle != NO_THREAD ==> s.states[s.idle] == Ready || s.states[s.idle] == Running)
    && Distinct(s.queue)
    && (forall id :: id in s.queue <==> Waiting(s, id))
  }

  /**
   Less than the invariant, and enough for every operation: before boot too, and after a failed exit.
   Queued threads are ready, once each, and the current one is not among them.
   */
  ghost predicate Sane(s: Sched) {
    && Shaped(s) && Distinct(s.queue)
    && (forall id :: id in s.queue ==> s.states[id] == Ready)
    && (s.current != NO_THREAD ==> s.current !in s.queue && s.states[s.current] != Unused)
  }

  /** Room in the ring wherever the code enqueues; `SchedRuns.SaneRoom` shows that there always is. */
  ghost predicate RoomToRotate(s: Sched) {
    Shaped(s) && (s.current != NO_THREAD ==> |s.queue| < MAX_THREADS)
  }

  ghost predicate RoomToCreate(s: Sched) {
    Shaped(s) && (Lowest(s.states, Unused).Some? ==> |s.queue| < MAX_THREADS)
  }

  lemma InvSane(s: Sched)
    requires Inv(s)
    ensures Sane(s)
  {
    assert !Waiting(s, s.current);
    assert forall id :: id in s.queue ==> Waiting(s, id);
  }

  lemma {:induction false} DistinctAt(q: seq<nat>, i: nat, j: nat)
    requires Distinct(q) && i < j < |q|
    ensures q[i] != q[j]
  {
    if i == 0 {
      assert q[j] == q[1..][j - 1];
    } else {
      DistinctAt(q[1..], i - 1, j - 1);
    }
  }

  lemma {:induction false} Push(q: seq<nat>, x: nat)
    requires Distinct(q) && x !in q
    ensures Distinct(q + [x])
  {
    if q == [] {
    } else {
      Push(q[1..], x);
      assert (q + [x])[1..] == q[1..] + [x];
    }
  }

  lemma Pop(q: seq<nat>)
    requires Distinct(q) && q != []
    ensures Distinct(q[1..])
    ensures forall id :: id in q[1..] <==> id in q && id != q[0]
  {
    assert q == [q[0]] + q[1..];
  }

  lemma BootInv(id: nat)
    requires id < MAX_THREADS
    ensures Inv(RegisterBoot(Fresh, id).0)
  {
  }

  lemma RegisterIdleInv(s: Sched, id: nat)
    requires Inv(s)
    ensures Inv(RegisterIdle(s, id).0)
  {
  }

  lemma RegisterIdleAnyInv(s: Sched)
    requires Inv(s)
    ensures Inv(RegisterIdleAny(s).0)
  {
    var r := Lowest(s.states, Unused);
    if r.Some? {
      RegisterIdleInv(s, r.value);
    }
  }

  lemma CreateInv(s: Sched)
    requires Inv(s)
    ensures Inv(Create(s).0)
  {
    var r := Lowest(s.states, Unused);
    if r.Some? {
      assert !Waiting(s, r.value);
      Push(s.queue, r.value);
    }
  }

  lemma RotateQueue(s: Sched)
    requires Inv(s) && s.queue != []
    ensures var q := Rotate(s).0.queue;
            Distinct(q)
            && (forall id :: id in q <==> (id in s.queue && id != s.queue[0]) || (id == s.current && id != s.idle))
  {
    Pop(s.queue);
    if s.current == s.idle {
      assert s.queue[1..] + [] == s.queue[1..];
    } else {
      assert !Waiting(s, s.current);
      Push(s.queue[1..], s.current);
    }
  }

  lemma RotateInv(s: Sched)
    requires Inv(s)
    ensures Inv(Rotate(s).0)
  {
    if s.queue != [] {
      RotateQueue(s);
      assert s.queue[0] in s.queue && Waiting(s, s.queue[0]);
    }
  }

  /** Something else can run, and idle leaves the CPU to nobody. */
  ghost predicate ExitSafe(s: Sched) {
    if s.queue == [] then s.idle != NO_THREAD else s.current != s.idle
  }

  lemma ExitInv(s: Sched)
    requires Inv(s) && ExitSafe(s)
    ensures Inv(ExitCurrent(s).0) && ExitCurrent(s).1.Ok?
  {
    if s.queue != [] {
      assert s.queue[0] in s.queue && Waiting(s, s.queue[0]);
      Pop(s.queue);
    } else {
      assert forall id :: !Waiting(s, id);
    }
  }

  /**
   The exiting thread is gone for good and whoever waited longest goes on, or idle if nobody did. Only idle,
   when nobody waits, outlives its own exit.
   */
  ghost predicate Gone(s: Sched, s': Sched)
    requires Inv(s) && |s'.states| == MAX_THREADS
  {
    && (s'.states[s.current] == Exited <==> s.current != s.idle) && s.current !in s'.queue
    && (if s.queue == [] then s'.current == s.idle && s'.queue == []
        else s'.current == s.queue[0] && s'.queue == s.queue[1..])
    && forall id :: 0 <= id < MAX_THREADS && id != s.current && id != s'.current ==> s'.states[id] == s.states[id]
  }

  lemma ExitOutcome(s: Sched)
    requires Inv(s) && ExitSafe(s)
    ensures Gone(s, ExitCurrent(s).0)
  {
    if s.queue != [] {
      assert s.queue[0] in s.queue && Waiting(s, s.queue[0]);
      Pop(s.queue);
    }
    assert !Waiting(s, s.current);
  }

  /** Idle registration succeeds exactly on an unused slot while there is no idle thread; idle is never queued. */
  lemma RegisterIdleOutcome(s: Sched, id: nat)
    requires Shaped(s)
    ensures var (s', r) := RegisterIdle(s, id);
            && (r.Ok? <==> id < MAX_THREADS && s.idle == NO_THREAD && s.states[id] == Unused)
            && (r.Err? ==> s' == s && r.error == if id < MAX_THREADS && s.idle != NO_THREAD
                                                 then IdleAlreadyRegistered else InvalidId(id))
            && (r.Ok? ==>
                  && s'.idle == id && s'.states[id] == Ready && s'.kinds[id] == Idle
                  && s'.queue == s.queue && s'.current == s.current
                  && forall j :: 0 <= j < MAX_THREADS && j != id ==>
                                 s'.states[j] == s.states[j] && s'.kinds[j] == s.kinds[j])
  {
  }

  /** Creation succeeds exactly if a slot is unused, takes the lowest one, and queues the thread last. */
  lemma CreateOutcome(s: Sched)
    requires Shaped(s)
    ensures var (s', r) := Create(s);
            && (r.Ok? <==> exists id :: 0 <= id < MAX_THREADS && s.states[id] == Unused)
            && (r.Err? ==> s' == s && r.error == NoFreeSlot)
            && (r.Ok? ==>
                  && r.value < MAX_THREADS && s.states[r.value] == Unused
                  && (forall id :: 0 <= id < r.value ==> s.states[id] != Unused)
                  && s'.states[r.value] == Ready && s'.kinds[r.value] == Normal && s'.queue == s.queue + [r.value]
                  && s'.current == s.current
                  && forall id :: 0 <= id < MAX_THREADS && id != r.value ==>
                                  s'.states[id] == s.states[id] && s'.kinds[id] == s.kinds[id])
  {
  }

  /** Idle does not end by its own exit: after the boot thread's, it runs on. */
  lemma IdleOutlives()
    ensures var s := ExitCurrent(RegisterIdle(RegisterBoot(Fresh, 0).0, 1).0).0;
            && Inv(s) && ExitSafe(s) && s.current == s.idle == 1
            && ExitCurrent(s).1 == Ok(Switch(1, 1)) && ExitCurrent(s).0.states[1] == Running
  {
    var boot := RegisterBoot(Fresh, 0).0;
    BootInv(0);
    RegisterIdleInv(boot, 1);
    var idle := RegisterIdle(boot, 1).0;
    ExitInv(idle);
    assert ExitCurrent(idle).0.queue == [];
  }

  /** Exactly then: a failed exit leaves nobody running, and an exited idle thread could run again. */
  lemma ExitSafeIff(s: Sched)
    requires Inv(s)
    ensures ExitCurrent(s).1.Ok? && Inv(ExitCurrent(s).0) <==> ExitSafe(s)
  {
    if ExitSafe(s) {
      ExitInv(s);
    } else if s.queue != [] {
      assert Waiting(s, s.queue[0]);
      assert ExitCurrent(s).0.states[s.idle] == Exited;
    }
  }

  /**
   Registering the boot context again is never refused.  It keeps the invariant exactly for the running
   thread, unless that is idle, which would lose its kind.
   */
  lemma RegisterBootAgain(s: Sched, id: nat)
    requires Inv(s) && id < MAX_THREADS
    ensures RegisterBoot(s, id).1.Ok?
    ensures Inv(RegisterBoot(s, id).0) <==> id == s.current && id != s.idle
  {
    var s' := RegisterBoot(s, id).0;
    assert s'.states[id] == Running && s'.states[s.current] == Running && s'.kinds[id] == Boot;
    if id == s.current {
      assert forall i :: Waiting(s', i) <==> Waiting(s, i);
    }
  }

  /** An idle thread registered so is queued by the next rotation. */
  lemma IdleQueued(s: Sched)
    requires Inv(s) && s.current == s.idle && s.queue != []
    ensures s.idle in Rotate(RegisterBoot(s, s.current).0).0.queue
  {
    var s' := RegisterBoot(s, s.current).0;
    assert Rotate(s').0.queue == s'.queue[1..] + [s.idle];
  }

  /** The freshly booted scheduler, where two documented promises already fail. */
  lemma FailsAtBoot()
    ensures var s := RegisterBoot(Fresh, 0).0;
            && Inv(s)
            && ExitCurrent(s).1 == Err(NothingToRun) && !Inv(ExitCurrent(s).0)
            && RegisterBoot(s, 1).1.Ok? && !Inv(RegisterBoot(s, 1).0)
  {
    BootInv(0);
    var s := RegisterBoot(Fresh, 0).0;
    assert ExitCurrent(s).0.current == 0 && ExitCurrent(s).0.states[0] == Exited;
    RegisterBootAgain(s, 1);
  }

  lemma ReapInv(s: Sched)
    requires Inv(s)
    ensures Inv(TakeReapable(s).0)
  {
  }
}

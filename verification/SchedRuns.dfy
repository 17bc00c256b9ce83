/** Whole runs of the scheduler: safety, lifecycle, absence of starvation and fairness. */
module SchedRuns {
  import opened Arithmetic
  import opened SchedModel
  import opened Wrappers

  datatype Op =
    | RegisterIdleOp(id: nat)
    | RegisterIdleAnyOp
    | CreateOp
    | TickOp(reschedule: bool)
    | YieldOp
    | ExitOp
    | ReapOp

  /** Exits happen only where they are safe: idle is registered first and never exits over a waiting thread. */
  ghost predicate Legal(s: Sched, op: Op) {
    op.ExitOp? ==> ExitSafe(s)
  }

  ghost function Step(s: Sched, op: Op): Sched
    requires Shaped(s)
  {
    match op
    case RegisterIdleOp(id) => RegisterIdle(s, id).0
    case RegisterIdleAnyOp => RegisterIdleAny(s).0
    case CreateOp => Create(s).0
    case TickOp(reschedule) => OnTick(s, reschedule).0
    case YieldOp => Rotate(s).0
    case ExitOp => ExitCurrent(s).0
    case ReapOp => TakeReapable(s).0
  }

  lemma StepInv(s: Sched, op: Op)
    requires Inv(s) && Legal(s, op)
    ensures Inv(Step(s, op))
  {
    match op
    case RegisterIdleOp(id) => RegisterIdleInv(s, id);
    case RegisterIdleAnyOp => RegisterIdleAnyInv(s);
    case CreateOp => CreateInv(s);
    case TickOp(reschedule) => RotateInv(s.(ticks := s.ticks + 1));
    case YieldOp => RotateInv(s);
    case ExitOp => ExitInv(s);
    case ReapOp => ReapInv(s);
  }

  /** `run` starts with `s` and every later state follows from the one before by a legal step. */
  ghost predicate Run(run: seq<Sched>, ops: seq<Op>) {
    && |run| == |ops| + 1
    && (forall n :: 0 <= n < |run| ==> Shaped(run[n]))
    && (forall n :: 0 <= n < |ops| ==> Took(run, ops, n))
  }

  ghost predicate Took(run: seq<Sched>, ops: seq<Op>, n: nat) {
    && n < |ops| && n + 1 < |run| && Shaped(run[n])
    && Legal(run[n], ops[n])
    && run[n + 1] == Step(run[n], ops[n])
  }

  /** The invariant holds in every state of every legal run. */
  lemma {:induction false} RunInv(run: seq<Sched>, ops: seq<Op>, n: nat)
    requires Run(run, ops) && Inv(run[0]) && n < |run|
    ensures Inv(run[n])
  {
    if n == 0 {
    } else {
      RunInv(run, ops, n - 1);
      assert Took(run, ops, n - 1);
      StepInv(run[n - 1], ops[n - 1]);
    }
  }

  // ----- the queue never overflows -----

  function Remove(q: seq<nat>, x: nat): seq<nat> {
    if q == [] then [] else if q[0] == x then q[1..] else [q[0]] + Remove(q[1..], x)
  }

  lemma {:induction false} RemoveSpec(q: seq<nat>, x: nat)
    requires Distinct(q)
    ensures Distinct(Remove(q, x)) && |q| <= |Remove(q, x)| + 1
    ensures forall y :: y in Remove(q, x) ==> y in q && y != x
  {
    if q == [] || q[0] == x {
    } else {
      RemoveSpec(q[1..], x);
      assert Remove(q, x)[1..] == Remove(q[1..], x);
      assert forall y :: y in Remove(q, x) ==> y == q[0] || y in Remove(q[1..], x);
    }
  }

  lemma {:induction false} DistinctBelow(q: seq<nat>, bound: nat)
    requires Distinct(q) && forall x :: x in q ==> x < bound
    ensures |q| <= bound
    decreases bound
  {
    assert q == [] || q[0] in q;
    if bound == 0 {
    } else {
      RemoveSpec(q, bound - 1);
      DistinctBelow(Remove(q, bound - 1), bound - 1);
    }
  }

  /** A ready queue that leaves out some thread has room for one more. */
  lemma RoomFor(q: seq<nat>, id: nat)
    requires Distinct(q) && id < MAX_THREADS && id !in q && forall x :: x in q ==> x < MAX_THREADS
    ensures |q| < MAX_THREADS
  {
    Push(q, id);
    DistinctBelow(q + [id], MAX_THREADS);
  }

  /** The current thread is never queued, so a slot of the ring is always left. */
  lemma NoOverflow(s: Sched)
    requires Inv(s)
    ensures |s.queue| < MAX_THREADS
    ensures s.current !in s.queue && s.idle !in s.queue
  {
    assert !Waiting(s, s.current) && !Waiting(s, s.idle);
    RoomFor(s.queue, s.current);
  }

  /** So it is wherever something may be enqueued, before boot and after a failed exit as well. */
  lemma SaneRoom(s: Sched)
    requires Sane(s)
    ensures RoomToRotate(s) && RoomToCreate(s)
  {
    if s.current != NO_THREAD {
      RoomFor(s.queue, s.current);
    }
    if Lowest(s.states, Unused).Some? {
      RoomFor(s.queue, Lowest(s.states, Unused).value);
    }
  }

  /** The next reaping takes the current thread, which has failed to exit. */
  ghost predicate ReapsCurrent(s: Sched) {
    s.current != NO_THREAD && Lowest(s.states, Exited) == Some(s.current)
  }

  /** Every operation keeps that much, in any order, except exactly the reaping of the current thread. */
  lemma StepSane(s: Sched, op: Op)
    requires Sane(s)
    ensures Sane(Step(s, op)) <==> !(op.ReapOp? && ReapsCurrent(s))
  {
    match op
    case RegisterIdleOp(id) =>
    case RegisterIdleAnyOp =>
    case CreateOp => CreateSane(s);
    case TickOp(reschedule) => RotateSane(s.(ticks := s.ticks + 1));
    case YieldOp => RotateSane(s);
    case ExitOp => ExitSane(s);
    case ReapOp => ReapSane(s);
  }

  lemma ExitSane(s: Sched)
    requires Sane(s)
    ensures Sane(ExitCurrent(s).0)
  {
    if s.current != NO_THREAD && s.queue != [] {
      Pop(s.queue);
      assert s.queue[0] in s.queue;
    }
  }

  lemma ReapSane(s: Sched)
    requires Sane(s)
    ensures Sane(TakeReapable(s).0) <==> !ReapsCurrent(s)
  {
  }

  lemma CreateSane(s: Sched)
    requires Sane(s)
    ensures Sane(Create(s).0)
  {
    var r := Lowest(s.states, Unused);
    if r.Some? {
      Push(s.queue, r.value);
    }
  }

  lemma RotateSane(s: Sched)
    requires Sane(s)
    ensures Sane(Rotate(s).0)
  {
    if s.current != NO_THREAD && s.queue != [] {
      Pop(s.queue);
      assert s.queue[0] in s.queue;
      if s.kinds[s.current] == Idle {
        assert s.queue[1..] + [] == s.queue[1..];
      } else {
        Push(s.queue[1..], s.current);
      }
    }
  }

  /** Any operation at all, except the reaping of the current thread after its failed exit. */
  ghost predicate WentOn(run: seq<Sched>, ops: seq<Op>, n: nat) {
    && n < |ops| && n + 1 < |run| && Shaped(run[n]) && run[n + 1] == Step(run[n], ops[n])
    && !(ops[n].ReapOp? && ReapsCurrent(run[n]))
  }

  /** With or without a boot thread, whatever is called in whatever order, the ring never overflows. */
  lemma {:induction false} AnyOrderRoom(run: seq<Sched>, ops: seq<Op>, n: nat, boot: nat)
    requires n < |run| == |ops| + 1 && boot < MAX_THREADS && run[0] in {Fresh, RegisterBoot(Fresh, boot).0}
    requires forall k :: 0 <= k < |ops| ==> WentOn(run, ops, k)
    ensures Sane(run[n]) && RoomToRotate(run[n]) && RoomToCreate(run[n])
  {
    if n == 0 {
      SaneRoom(run[0]);
    } else {
      AnyOrderRoom(run, ops, n - 1, boot);
      assert WentOn(run, ops, n - 1);
      StepSane(run[n - 1], ops[n - 1]);
      SaneRoom(run[n]);
    }
  }

  function Created(s: Sched, n: nat): (r: Sched)
    requires |s.states| == |s.kinds| == MAX_THREADS
    ensures |r.states| == |r.kinds| == MAX_THREADS
  {
    if n == 0 then s else Create(Created(s, n - 1)).0
  }

  lemma {:induction false} CreatedFrom(s: Sched, n: nat)
    requires Shaped(s) && s.queue == [] && n <= MAX_THREADS
    requires forall i :: 0 <= i < MAX_THREADS ==> s.states[i] == Unused
    ensures var r := Created(s, n);
            && Shaped(r) && |r.queue| == n && r.current == s.current
            && forall i :: 0 <= i < MAX_THREADS ==> r.states[i] == if i < n then Ready else Unused
  {
    if n == 0 {
    } else {
      CreatedFrom(s, n - 1);
      var before := Created(s, n - 1);
      assert before.states[n - 1] == Unused;
      assert Lowest(before.states, Unused) == Some(n - 1);
    }
  }

  /** And then it does go wrong: the boot thread fails to exit, is reaped all the same, and the ring overflows. */
  lemma ReapedThenFull()
    ensures var failed := ExitCurrent(RegisterBoot(Fresh, 0).0).0;
            var (s, reaped) := TakeReapable(failed);
            && Sane(failed) && ReapsCurrent(failed) && reaped == Some(failed.current)
            && !RoomToRotate(Created(s, MAX_THREADS))
  {
    var boot := RegisterBoot(Fresh, 0).0;
    var failed := ExitCurrent(boot).0;
    assert failed.states[0] == Exited;
    assert Lowest(failed.states, Exited) == Some(0);
    CreatedFrom(TakeReapable(failed).0, MAX_THREADS);
  }

  // ----- when idle runs -----

  /** An empty queue does not bring idle in: only the exit of the last other thread does. */
  lemma IdleEnters(s: Sched, op: Op)
    requires Inv(s) && Legal(s, op) && s.current != s.idle
    ensures Step(s, op).current == Step(s, op).idle <==> op.ExitOp? && s.queue == []
  {
    NoOverflow(s);
    if s.queue != [] {
      assert s.queue[0] in s.queue;
    }
  }

  /** Over a run: while nobody exits over an empty queue, idle stays off the processor. */
  lemma {:induction false} IdleOnlyAfterExit(run: seq<Sched>, ops: seq<Op>, n: nat)
    requires Run(run, ops) && Inv(run[0]) && n < |run| && run[0].current != run[0].idle
    requires forall m :: 0 <= m < n ==> !(ops[m].ExitOp? && run[m].queue == [])
    ensures run[n].current != run[n].idle
  {
    if n == 0 {
    } else {
      IdleOnlyAfterExit(run, ops, n - 1);
      RunInv(run, ops, n - 1);
      assert Took(run, ops, n - 1);
      IdleEnters(run[n - 1], ops[n - 1]);
    }
  }

  /** With idle registered and nobody waiting, a preempting tick leaves the boot thread where it is. */
  lemma IdleStaysOut()
    ensures var s := RegisterIdle(RegisterBoot(Fresh, 0).0, 1).0;
            Inv(s) && s.idle == 1 && s.queue == [] && Step(s, TickOp(true)).current == 0
  {
    SchedModel.BootInv(0);
    RegisterIdleInv(RegisterBoot(Fresh, 0).0, 1);
  }

  // ----- lifecycle -----

  predicate MayBecome(a: ThreadState, b: ThreadState) {
    || a == b
    || (a == Unused && b == Ready)
    || (a == Ready && b == Running)
    || (a == Running && b == Ready)
    || (a == Running && b == Exited)
    || (a == Exited && b == Unused)
  }

  /** Every thread moves along the documented lifecycle, one edge per step. */
  lemma Lifecycle(s: Sched, op: Op, id: nat)
    requires Inv(s) && Legal(s, op) && id < MAX_THREADS
    ensures |Step(s, op).states| == MAX_THREADS
    ensures MayBecome(s.states[id], Step(s, op).states[id])
  {
    if s.queue != [] {
      assert Waiting(s, s.queue[0]);
    }
  }

  /** The slot that a step turns from unused into a thread, if any. */
  function NewThread(s: Sched, op: Op): Option<nat>
    requires |s.states| == |s.kinds| == MAX_THREADS
  {
    match op
    case CreateOp => Lowest(s.states, Unused)
    case RegisterIdleAnyOp => if s.idle == NO_THREAD then Lowest(s.states, Unused) else None
    case RegisterIdleOp(id) =>
      if s.idle == NO_THREAD && id < MAX_THREADS && s.states[id] == Unused then Some(id) else None
    case _ => None
  }

  /** The slot is exited and the next to be reaped. */
  ghost predicate NextReaped(s: Sched, id: nat)
    requires id < |s.states|
  {
    s.states[id] == Exited && forall j :: 0 <= j < id ==> s.states[j] != Exited
  }

  /**
   Which edge is taken when: a thread is exited exactly by its own exit, idle's excepted, until it is reaped,
   which takes the lowest; a slot is unused until it is created, and again once it is reaped.
   */
  ghost predicate EdgeTaken(s: Sched, op: Op, s': Sched, id: nat)
    requires |s.states| == |s.kinds| == MAX_THREADS && id < MAX_THREADS
  {
    && |s'.states| == MAX_THREADS
    && (s'.states[id] == Exited <==>
          || (s.states[id] == Exited && !(op.ReapOp? && NextReaped(s, id)))
          || (op.ExitOp? && id == s.current && id != s.idle))
    && (s'.states[id] == Unused <==>
          || (op.ReapOp? && NextReaped(s, id))
          || (s.states[id] == Unused && NewThread(s, op) != Some(id)))
    && (s'.states[id] == Running <==> id == s'.current)
  }

  lemma Edges(s: Sched, op: Op, id: nat)
    requires Inv(s) && Legal(s, op) && id < MAX_THREADS
    ensures EdgeTaken(s, op, Step(s, op), id)
  {
    StepInv(s, op);
    match op
    case RegisterIdleOp(_) =>
    case RegisterIdleAnyOp =>
    case CreateOp =>
    case TickOp(reschedule) => RotateEdges(s.(ticks := s.ticks + 1), op, id);
    case YieldOp => RotateEdges(s, op, id);
    case ExitOp => ExitEdges(s, id);
    case ReapOp => ReapEdges(s, id);
  }

  lemma RotateEdges(s: Sched, op: Op, id: nat)
    requires Inv(s) && id < MAX_THREADS && (op.TickOp? || op.YieldOp?)
    ensures Inv(Rotate(s).0) && EdgeTaken(s, op, Rotate(s).0, id)
  {
    RotateInv(s);
    if s.queue != [] {
      assert s.queue[0] in s.queue && Waiting(s, s.queue[0]);
    }
  }

  lemma ExitEdges(s: Sched, id: nat)
    requires Inv(s) && ExitSafe(s) && id < MAX_THREADS
    ensures EdgeTaken(s, ExitOp, ExitCurrent(s).0, id)
  {
    ExitInv(s);
    ExitOutcome(s);
    if s.queue != [] {
      assert s.queue[0] in s.queue && Waiting(s, s.queue[0]);
    }
  }

  lemma ReapEdges(s: Sched, id: nat)
    requires Inv(s) && id < MAX_THREADS
    ensures EdgeTaken(s, ReapOp, TakeReapable(s).0, id)
  {
    var r := Lowest(s.states, Exited);
    assert r == Some(id) <==> NextReaped(s, id);
  }

  /** Ticks count timer interrupts; switches count the steps that hand the processor on. */
  lemma Counted(s: Sched, op: Op)
    requires Inv(s) && Legal(s, op)
    ensures var s' := Step(s, op);
            && s'.ticks == s.ticks + (if op.TickOp? then 1 else 0)
            && s'.switches == s.switches + (if op.ExitOp? || (Reschedules(op) && s.queue != []) then 1 else 0)
  {
  }

  /** A thread that has exited is not current again before its slot is given to a new one. */
  lemma {:induction false} NotBack(run: seq<Sched>, ops: seq<Op>, i: nat, n: nat, id: nat)
    requires Run(run, ops) && Inv(run[0]) && i < n <= |ops|
    requires ops[i].ExitOp? && id == run[i].current && id != run[i].idle
    requires forall k :: i < k < n ==> NewThread(run[k], ops[k]) != Some(id)
    ensures id < MAX_THREADS && run[n].states[id] in {Exited, Unused} && run[n].current != id
    decreases n
  {
    RunInv(run, ops, n - 1);
    RunInv(run, ops, n);
    assert Took(run, ops, n - 1);
    if n == i + 1 {
      ExitOutcome(run[i]);
    } else {
      NotBack(run, ops, i, n - 1, id);
      Edges(run[n - 1], ops[n - 1], id);
    }
  }

  /** An exited thread stays exited, and off the CPU, until its slot is reaped. */
  lemma {:induction false} ExitedStays(run: seq<Sched>, ops: seq<Op>, id: nat, n: nat)
    requires Run(run, ops) && Inv(run[0]) && n < |run| && id < MAX_THREADS
    requires run[0].states[id] == Exited
    requires forall m :: 0 <= m <= n ==> run[m].states[id] != Unused
    ensures run[n].states[id] == Exited && run[n].current != id
  {
    RunInv(run, ops, n);
    if n == 0 {
    } else {
      ExitedStays(run, ops, id, n - 1);
      RunInv(run, ops, n - 1);
      assert Took(run, ops, n - 1);
      Lifecycle(run[n - 1], ops[n - 1], id);
    }
  }

  // ----- no starvation -----

  predicate Reschedules(op: Op) {
    op.YieldOp? || op.ExitOp? || (op.TickOp? && op.reschedule)
  }

  function Reschedulings(ops: seq<Op>, n: nat): nat
    requires n <= |ops|
  {
    if n == 0 then 0 else Reschedulings(ops, n - 1) + (if Reschedules(ops[n - 1]) then 1 else 0)
  }

  /** A rescheduling step runs the head of the queue; every other step leaves the queue's front alone. */
  lemma QueueStep(s: Sched, op: Op)
    requires Inv(s) && Legal(s, op) && s.queue != []
    ensures if Reschedules(op)
            then Step(s, op).current == s.queue[0] && s.queue[1..] <= Step(s, op).queue
            else Step(s, op).current == s.current && s.queue <= Step(s, op).queue
  {
  }

  /** Whatever else happens, a waiting thread moves up one place per rescheduling step. */
  lemma {:induction false} MovesUp(run: seq<Sched>, ops: seq<Op>, k: nat, n: nat)
    requires Run(run, ops) && Inv(run[0]) && n < |run| && k < |run[0].queue|
    requires Reschedulings(ops, n) <= k
    ensures var ahead := k - Reschedulings(ops, n);
            ahead < |run[n].queue| && run[n].queue[ahead] == run[0].queue[k]
  {
    if n == 0 {
    } else {
      MovesUp(run, ops, k, n - 1);
      RunInv(run, ops, n - 1);
      assert Took(run, ops, n - 1);
      QueueStep(run[n - 1], ops[n - 1]);
    }
  }

  /** The thread at position `k` runs at exactly the `k + 1`-th rescheduling step. */
  lemma NoStarvation(run: seq<Sched>, ops: seq<Op>, k: nat, n: nat)
    requires Run(run, ops) && Inv(run[0]) && n < |ops| && k < |run[0].queue|
    requires Reschedulings(ops, n) == k && Reschedules(ops[n])
    ensures run[n + 1].current == run[0].queue[k]
    ensures forall m :: 0 <= m <= n ==> run[m].current != run[0].queue[k]
    ensures k + 1 < MAX_THREADS
  {
    MovesUp(run, ops, k, n);
    RunInv(run, ops, n);
    assert Took(run, ops, n);
    QueueStep(run[n], ops[n]);
    NoOverflow(run[0]);
    forall m | 0 <= m <= n
      ensures run[m].current != run[0].queue[k]
    {
      ReschedulingsGrow(ops, m, n);
      MovesUp(run, ops, k, m);
      RunInv(run, ops, m);
      NoOverflow(run[m]);
    }
  }

  lemma {:induction false} ReschedulingsGrow(ops: seq<Op>, m: nat, n: nat)
    requires m <= n <= |ops|
    ensures Reschedulings(ops, m) <= Reschedulings(ops, n)
    decreases n
  {
    if m == n {
    } else {
      ReschedulingsGrow(ops, m, n - 1);
    }
  }

  // ----- round-robin fairness -----

  /** The threads taking turns, the current one first. */
  function Ring(s: Sched): seq<nat> {
    [s.current] + s.queue
  }

  /** Steps after which the same threads take turns. */
  predicate Calm(op: Op) {
    op.TickOp? || op.YieldOp? || op.ReapOp?
  }

  ghost predicate CalmRun(run: seq<Sched>, ops: seq<Op>) {
    && Run(run, ops) && Inv(run[0]) && run[0].current != run[0].idle
    && (forall n :: 0 <= n < |ops| ==> Calm(ops[n]))
  }

  /** One place on, or not. */
  function Advanced(ring: seq<nat>, turn: bool): seq<nat>
    requires ring != []
  {
    if turn then ring[1..] + [ring[0]] else ring
  }

  lemma RingStep(s: Sched, op: Op)
    requires Inv(s) && s.current != s.idle && Calm(op)
    ensures var ring, s' := Ring(s), Step(s, op);
            && s'.idle == s.idle && s'.current != s'.idle
            && Ring(s') == Advanced(ring, Reschedules(op))
  {
    NoOverflow(s);
    if s.queue != [] {
      assert s.queue[0] in s.queue;
      assert Ring(s)[1..] == s.queue;
      assert Reschedules(op) ==> Ring(Step(s, op)) == s.queue + [s.current];
    }
  }

  lemma RingAdvance(run: seq<Sched>, ops: seq<Op>, n: nat)
    requires CalmRun(run, ops) && 0 < n < |run| && run[n - 1].current != run[n - 1].idle
    ensures run[n].idle == run[n - 1].idle && run[n].current != run[n].idle
    ensures Ring(run[n]) == Advanced(Ring(run[n - 1]), Reschedules(ops[n - 1]))
  {
    RunInv(run, ops, n - 1);
    assert Took(run, ops, n - 1);
    RingStep(run[n - 1], ops[n - 1]);
  }

  /** The ring after `k` rotations. */
  function Turned(ring: seq<nat>, k: nat): (r: seq<nat>)
    requires ring != []
    ensures |r| == |ring|
  {
    if k == 0 then ring else var before := Turned(ring, k - 1); Advanced(before, true)
  }

  /** Rescheduling steps turn the ring, one place each; idle never gets a turn. */
  lemma {:induction false} RingTurns(run: seq<Sched>, ops: seq<Op>, n: nat)
    requires CalmRun(run, ops) && n < |run|
    ensures Ring(run[n]) == Turned(Ring(run[0]), Reschedulings(ops, n))
    ensures run[n].idle == run[0].idle && run[n].current != run[0].idle
  {
    if n == 0 {
    } else {
      RingTurns(run, ops, n - 1);
      RingAdvance(run, ops, n);
      TurnedNext(Ring(run[0]), ops, n);
    }
  }

  lemma TurnedNext(ring: seq<nat>, ops: seq<Op>, n: nat)
    requires ring != [] && 0 < n <= |ops|
    ensures Turned(ring, Reschedulings(ops, n))
            == Advanced(Turned(ring, Reschedulings(ops, n - 1)), Reschedules(ops[n - 1]))
  {
  }

  /** Who stands at place `i` then. */
  lemma {:induction false} TurnedAt(ring: seq<nat>, k: nat, i: nat)
    requires i < |ring|
    ensures Turned(ring, k)[i] == ring[(i + k) % |ring|]
    decreases k
  {
    if k == 0 {
      DivModUnique(i, |ring|, 0, i);
    } else {
      TurnedAt(ring, k - 1, Behind(i, |ring|));
      TurnOnce(i, k, |ring|);
    }
  }

  /** The place whose occupant moves up to place `i`. */
  function Behind(i: nat, n: nat): nat
    requires i < n
  {
    if i + 1 < n then i + 1 else 0
  }

  lemma TurnOnce(i: nat, m: nat, n: nat)
    requires i < n && 0 < m
    ensures (Behind(i, n) + (m - 1)) % n == (i + m) % n
  {
    if i + 1 == n {
      var q, r := (m - 1) / n, (m - 1) % n;
      assert i + m == (q + 1) * n + r;
      DivModUnique(i + m, n, q + 1, r);
    }
  }

  /** After as many rotations as there are participants, every thread is back in its place. */
  lemma FullRound(run: seq<Sched>, ops: seq<Op>, n: nat)
    requires CalmRun(run, ops) && n < |run| && Reschedulings(ops, n) == |Ring(run[0])|
    ensures run[n].current == run[0].current && run[n].queue == run[0].queue
  {
    var ring := Ring(run[0]);
    RingTurns(run, ops, n);
    forall i | 0 <= i < |ring|
      ensures Ring(run[n])[i] == ring[i]
    {
      TurnedAt(ring, |ring|, i);
      DivModUnique(i + |ring|, |ring|, 1, i);
    }
    assert Ring(run[n])[0] == ring[0];
    assert Ring(run[n])[1..] == ring[1..];
    assert run[n].queue == Ring(run[n])[1..] && run[0].queue == ring[1..];
  }

  /** How often `id` is the thread put on the CPU by the first `n` steps. */
  ghost function Turns(run: seq<Sched>, ops: seq<Op>, id: nat, n: nat): nat
    requires n <= |ops| < |run|
  {
    if n == 0 then 0 else
      Turns(run, ops, id, n - 1) + (if Reschedules(ops[n - 1]) && run[n].current == id then 1 else 0)
  }

  /** The participant `i` places from the front has its turns at rotations `i`, `i + size`, and so on. */
  lemma {:induction false} TurnsAt(run: seq<Sched>, ops: seq<Op>, i: nat, n: nat)
    requires CalmRun(run, ops) && n <= |ops| && i < |Ring(run[0])|
    ensures var size := |Ring(run[0])|;
            Turns(run, ops, Ring(run[0])[i], n) == TurnsBy(i, Reschedulings(ops, n), size)
    decreases n
  {
    var size := |Ring(run[0])|;
    if n == 0 {
      var first := if i == 0 then size else i;
      DivModUnique(size - first, size, 0, size - first);
    } else {
      TurnsAt(run, ops, i, n - 1);
      if Reschedules(ops[n - 1]) {
        var m := Reschedulings(ops, n);
        RingTurns(run, ops, n);
        TurnedAt(Ring(run[0]), m, 0);
        RingDistinct(run[0], i, m % size);
        NextTurn(i, m, size);
      }
    }
  }

  /** Visits to place `i` of a ring of `n` among the first `m` rotations. */
  function TurnsBy(i: nat, m: nat, n: nat): nat
    requires i < n
  {
    (m + n - (if i == 0 then n else i)) / n
  }

  lemma RingDistinct(s: Sched, i: nat, j: nat)
    requires Inv(s) && i < |Ring(s)| && j < |Ring(s)|
    ensures Ring(s)[i] == Ring(s)[j] <==> i == j
  {
    NoOverflow(s);
    assert Ring(s)[1..] == s.queue;
    if i < j {
      DistinctAt(Ring(s), i, j);
    } else if j < i {
      DistinctAt(Ring(s), j, i);
    }
  }

  lemma NextTurn(i: nat, m: nat, n: nat)
    requires i < n && 0 < m
    ensures TurnsBy(i, m, n) == TurnsBy(i, m - 1, n) + (if m % n == i then 1 else 0)
  {
    var v := m - 1 + n - (if i == 0 then n else i);
    var q, r := v / n, v % n;
    assert TurnsBy(i, m - 1, n) == q;
    if r + 1 < n {
      SameTurns(i, m, n, q, r);
      NotThisTurn(i, m, n, q, r);
    } else {
      ThisTurn(i, m, n, q);
    }
  }

  lemma SameTurns(i: nat, m: nat, n: nat, q: nat, r: nat)
    requires i < n && 0 < m && r + 1 < n && m - 1 + n - (if i == 0 then n else i) == q * n + r
    ensures TurnsBy(i, m, n) == q
  {
    DivModUnique(m + n - (if i == 0 then n else i), n, q, r + 1);
  }

  lemma ThisTurn(i: nat, m: nat, n: nat, q: nat)
    requires i < n && 0 < m && m - 1 + n - (if i == 0 then n else i) == q * n + (n - 1)
    ensures m % n == i && TurnsBy(i, m, n) == q + 1
  {
    DivModUnique(m + n - (if i == 0 then n else i), n, q + 1, 0);
    DivModUnique(m, n, if i == 0 then q + 1 else q, i);
  }

  lemma NotThisTurn(i: nat, m: nat, n: nat, q: nat, r: nat)
    requires i < n && r + 1 < n && m - 1 + n - (if i == 0 then n else i) == q * n + r
    ensures m % n != i
  {
    if i == 0 {
      DivModUnique(m, n, q, r + 1);
    } else if r + 1 + i < n {
      assert m == (q - 1) * n + (r + 1 + i);
      DivModUnique(m, n, q - 1, r + 1 + i);
    } else {
      DivModUnique(m, n, q, r + 1 + i - n);
    }
  }

  /** Over `m` rotations each of `size` participants runs `m / size` times, rounded down or up. */
  lemma RoundRobinFair(run: seq<Sched>, ops: seq<Op>, id: nat, n: nat)
    requires CalmRun(run, ops) && n <= |ops| && id in Ring(run[0])
    ensures var size, m := |Ring(run[0])|, Reschedulings(ops, n);
            m / size <= Turns(run, ops, id, n) <= (m + size - 1) / size
  {
    var size, m := |Ring(run[0])|, Reschedulings(ops, n);
    var i :| 0 <= i < size && Ring(run[0])[i] == id;
    TurnsAt(run, ops, i, n);
    var first := if i == 0 then size else i;
    DivMonotone(m, m + size - first, size);
    DivMonotone(m + size - first, m + size - 1, size);
  }
}

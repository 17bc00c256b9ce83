/** The whole way up in one physical memory: both images, the kernel's tables and threads, the user region. */
module BootFlow {
  import opened BootMemory
  import opened ContextSwitch
  import opened FrameAllocator
  import opened FrameModel
  import opened Image
  import opened Isolation
  import opened LittleEndian
  import opened Loader
  import opened MemoryMap
  import opened Mmu
  import opened PageEntries
  import Paging
  import opened PagingModel
  import S = SchedModel
  import opened SwitchModel
  import opened SwitchRuns
  import opened UserMap
  import opened UserMapModel
  import opened UserSpace
  import opened Wrappers

  const HEAP_PAGES: nat := 256
  const IST_PAGES: nat := 2

  // ----- the table arena, a part of the kernel image -----

  /** Memory is as it was, but for `len` bytes from `base`. */
  ghost predicate Outside(memory: seq<byte>, before: seq<byte>, base: nat, len: nat) {
    && |memory| == |before|
    && forall a :: 0 <= a < |memory| && !Within(a, base, len) ==> memory[a] == before[a]
  }

  /** The borrowed part of memory, which `PutBack` writes again when the borrow ends. */
  method Borrow(memory: array<byte>, base: nat, len: nat) returns (arena: array<byte>)
    requires base + len <= memory.Length
    ensures fresh(arena) && arena[..] == memory[base..base + len]
  {
    arena := new byte[len](_ => 0);
    for k := 0 to len
      invariant arena[..k] == memory[base..base + k]
    {
      arena[k] := memory[base + k];
    }
  }

  method PutBack(memory: array<byte>, base: nat, arena: array<byte>)
    requires memory != arena && base + arena.Length <= memory.Length
    modifies memory
    ensures memory[base..base + arena.Length] == arena[..]
    ensures Outside(memory[..], old(memory[..]), base, arena.Length)
  {
    for k := 0 to arena.Length
      invariant memory[base..base + k] == arena[..k] && Outside(memory[..], old(memory[..]), base, arena.Length)
    {
      memory[base + k] := arena[k];
    }
  }

  /** The arena is a variable of the kernel: it lies in one of its segments. */
  ghost predicate ArenaIn(segments: seq<Segment>, base: nat, len: nat) {
    exists i :: 0 <= i < |segments| && segments[i].paddr <= base && base + len <= segments[i].End()
  }

  /** Every segment byte outside the arena stands in memory as the file prescribes. */
  ghost predicate InPlaceBut(memory: seq<byte>, data: seq<byte>, segments: seq<Segment>, base: nat, len: nat)
    requires Sound(data, segments)
  {
    forall i: nat, a: nat :: i < |segments| && !Within(a, base, len) ==> ByteInPlace(memory, data, segments[i], a)
  }

  lemma KernelKept(memory: seq<byte>, before: seq<byte>, data: seq<byte>, segments: seq<Segment>, base: nat, len: nat)
    requires Sound(data, segments) && InPlace(before, data, segments) && Outside(memory, before, base, len)
    ensures InPlaceBut(memory, data, segments, base, len)
  {
    forall i: nat, a: nat | i < |segments| && !Within(a, base, len)
      ensures ByteInPlace(memory, data, segments[i], a)
    {
      assert ByteInPlace(before, data, segments[i], a);
    }
  }

  /** Pages asked for by one image are not the other's, so the kernel's arena holds no user byte. */
  lemma ArenaApart(kernel: seq<Segment>, user: seq<Segment>, kernelPages: seq<nat>, userPages: seq<nat>,
                   base: nat, len: nat, i: nat, a: nat)
    requires OwnPages(kernel, user, kernelPages, userPages)
    requires ArenaIn(kernel, base, len) && i < |user| && user[i].Contains(a)
    ensures !Within(a, base, len)
  {
    var k :| 0 <= k < |kernel| && kernel[k].paddr <= base && base + len <= kernel[k].End();
    PageNeeded(user, i, a);
    PageNeeded(kernel, k, a);
  }

  lemma UserKept(memory: seq<byte>, before: seq<byte>, data: seq<byte>, kernel: seq<Segment>, user: seq<Segment>,
                 kernelPages: seq<nat>, userPages: seq<nat>, base: nat, len: nat)
    requires OwnPages(kernel, user, kernelPages, userPages)
    requires ArenaIn(kernel, base, len) && Sound(data, user) && InPlace(before, data, user)
    requires Outside(memory, before, base, len)
    ensures InPlace(memory, data, user)
  {
    forall i: nat, a: nat | i < |user| ensures ByteInPlace(memory, data, user[i], a) {
      assert ByteInPlace(before, data, user[i], a);
      if user[i].Contains(a) {
        ArenaApart(kernel, user, kernelPages, userPages, base, len, i, a);
      }
    }
  }

  // ----- the kernel side -----

  function BootStack(info: BootInfo): Stack
    requires info.stackSize < info.stackTop
  {
    Stack(info.stackTop - info.stackSize, info.stackTop)
  }

  /** A frame clear of the reserved ranges is clear of the boot stack. */
  lemma ClearOfBootStack(info: BootInfo, arena: PhysRange, bitmap: PhysRange, frame: nat)
    requires InfoOk(info, bitmap) && arena.start < U64_LIMIT && frame + PAGE_SIZE <= MAX_IDENTITY_BYTES
    requires !TouchesReserved(OwnedRanges(info, arena, bitmap), frame)
    ensures info.stackTop <= frame || frame + PAGE_SIZE <= info.stackTop - info.stackSize
  {
    var range := PageRange(info.stackTop - info.stackSize, info.stackSize);
    assert OwnedRanges(info, arena, bitmap)[1] == range;
    assert !range.Overlaps(frame, frame + PAGE_SIZE);
  }

  /** The kernel's memory and threads are set up over the tables. */
  ghost predicate KernelUp(d: Dispatcher, rsp: nat, entries: seq<Pte>, base: nat, plan: Plan, regions: seq<Region>,
                           config: Paging.PagingConfig, reserved: seq<ReservedRange>)
    reads d, d.scheduler, d.scheduler.states, d.scheduler.kinds, d.scheduler.queue,
          d.frames, d.frames.allocatable, d.frames.used, d.slots
  {
    && d.Valid() && Inv(d.View(rsp)) && d.frames.reserved == reserved
    && d.frames.Address(d.frames.frames) <= MAX_IDENTITY_BYTES
    && TablesUp(entries, base, plan, regions, config)
    && AllSafe(entries, base, d.frames) && AllUsable(d.frames, regions)
  }

  lemma BootMachine(a: FrameAllocator, out: set<Run>, info: BootInfo, arena: PhysRange, bitmap: PhysRange,
                    entries: seq<Pte>, base: nat, rsp: nat)
    requires a.Valid() && Balanced(Ledger(a.Model(), out)) && AllSafe(entries, base, a)
    requires InfoOk(info, bitmap) && arena.start < U64_LIMIT && a.reserved == OwnedRanges(info, arena, bitmap)
    requires a.Address(0) == MIN_FREE_ADDR && a.Address(a.frames) <= MAX_IDENTITY_BYTES
    ensures BootApart(Machine(S.Fresh, [], Ledger(a.Model(), out), a.Address(0), BootStack(info), rsp, 0))
  {
    forall i | 0 <= i < a.frames && a.Model().allocatable[i]
      ensures info.stackTop <= a.Address(0) + i * PAGE_SIZE
              || a.Address(0) + (i + 1) * PAGE_SIZE <= info.stackTop - info.stackSize
    {
      assert FrameSafe(entries, base, a, i);
      ClearOfBootStack(info, arena, bitmap, a.Address(i));
    }
  }

  twostate predicate FreshFrames(new a: FrameAllocator) { fresh(a) && fresh(a.allocatable) && fresh(a.used) }

  twostate predicate FreshThreads(new d: Dispatcher) {
    fresh(d) && fresh(d.scheduler) && fresh(d.scheduler.states) && fresh(d.scheduler.kinds)
    && fresh(d.scheduler.queue) && fresh(d.slots)
  }

  /** The frames of the heap and of the interrupt stacks, then thread 0 on the boot stack. */
  method StartThreads(a: FrameAllocator, info: BootInfo, arena: PhysRange, bitmap: PhysRange,
                      ghost entries: seq<Pte>, ghost base: nat, ghost rsp: nat, ghost spare: nat)
    returns (r: Option<Dispatcher>)
    requires InfoOk(info, bitmap) && arena.start < U64_LIMIT && BootStack(info).Holds(rsp)
    requires NewAllocator(a, OwnedRanges(info, arena, bitmap)) && AllSafe(entries, base, a)
    modifies a, a.used
    ensures r.Some? ==> r.value.Valid() && Inv(r.value.View(rsp)) && r.value.frames == a && AllSafe(entries, base, a)
    ensures r.Some? ==> FreshThreads(r.value) && r.value.boot == BootStack(info)
    ensures r.Some? ==> r.value.scheduler.Model() == S.RegisterBoot(S.Fresh, 0).0
    ensures HasRoom(old(a.Model()), HEAP_PAGES + IST_PAGES + spare) ==> r.Some? && HasRoom(a.Model(), spare)
  {
    if HasRoom(a.Model(), HEAP_PAGES + IST_PAGES + spare) {
      RoomAfter(a.Model(), HEAP_PAGES, IST_PAGES + spare);
      RoomAfter(AllocContiguous(a.Model(), HEAP_PAGES).0, IST_PAGES, spare);
    }
    ghost var l := Ledger(a.Model(), {});
    StepBalanced(l, AllocOp(HEAP_PAGES));
    var heap := a.Take(HEAP_PAGES);
    if heap.None? {
      return None;
    }
    l := FrameModel.Step(l, AllocOp(HEAP_PAGES));
    StepBalanced(l, AllocOp(IST_PAGES));
    var ist := a.Take(IST_PAGES);
    if ist.None? {
      return None;
    }
    l := FrameModel.Step(l, AllocOp(IST_PAGES));
    BootMachine(a, l.out, info, arena, bitmap, entries, base, rsp);
    var d := new Dispatcher(a, BootStack(info), l.out, rsp);
    r := Some(d);
  }

  /** The tables, in their place in memory. */
  method InstallTables(memory: array<byte>, base: nat, len: nat, regions: seq<Region>, config: Paging.PagingConfig)
    returns (limit: Option<nat>, ghost plan: Plan)
    requires base + len <= memory.Length <= PHYS_LIMIT && config.fineGrainedBytes % BLOCK_SIZE == 0
    modifies memory
    ensures Outside(memory[..], old(memory[..]), base, len)
    ensures limit.Some? ==>
              TablesUp(Entries(memory[base..base + len]), base, plan, regions, config) && limit.value == plan.limit
    ensures limit.Some? <==> Paging.Fits(base, len, config) && RamBelow(regions, config)
    ensures limit.Some? ==> IsLimit(regions, config, limit.value)
  {
    var arena := Borrow(memory, base, len);
    limit, plan := Install(arena, base, regions, config);
    PutBack(memory, base, arena);
  }

  ghost predicate FreeSlot(s: S.Sched) {
    exists id :: 0 <= id < S.MAX_THREADS && id < |s.states| && s.states[id] == S.Unused
  }

  /** A thread that finds a slot and a stack. */
  lemma Started(m: Machine, idle: bool, user: bool)
    requires Inv(m) && Enrol(m, idle).1.Ok? && AllocContiguous(m.ledger.frames, STACK_PAGES).1.Some?
    ensures var m' := Start(m, idle, user);
            m'.sched == Enrol(m, idle).0 && m'.ledger.frames == AllocContiguous(m.ledger.frames, STACK_PAGES).0
  {
    Enrolled(m, idle);
  }

  /** After boot the idle thread finds a slot, and leaves one. */
  lemma BootSlots(m: Machine)
    requires SwitchModel.Shaped(m) && m.sched == S.RegisterBoot(S.Fresh, 0).0
    ensures Enrol(m, true).1.Ok? && FreeSlot(Enrol(m, true).0)
  {
    assert m.sched.states[1] == m.sched.states[2] == S.Unused;
    S.CreateOutcome(m.sched);
    var id := S.Lowest(m.sched.states, S.Unused).value;
    S.RegisterIdleOutcome(m.sched, id);
    assert Enrol(m, true).0.states[if id == 1 then 2 else 1] == S.Unused;
  }

  /** With frames for its stack and `spare` more, the idle thread starts and leaves those. */
  lemma IdleStarts(m: Machine, spare: nat)
    requires Inv(m) && m.sched == S.RegisterBoot(S.Fresh, 0).0 && HasRoom(m.ledger.frames, STACK_PAGES + spare)
    ensures Enrol(m, true).1.Ok? && AllocContiguous(m.ledger.frames, STACK_PAGES).1.Some?
    ensures var m' := Start(m, true, false); HasRoom(m'.ledger.frames, spare) && FreeSlot(m'.sched)
  {
    BootSlots(m);
    RoomAfter(m.ledger.frames, STACK_PAGES, spare);
    Started(m, true, false);
  }

  /** And the idle thread. */
  method StartIdle(d: Dispatcher, ghost rsp: nat, ghost spare: nat) returns (ok: bool)
    requires d.Valid() && Inv(d.View(rsp))
    modifies d`out, d.scheduler, d.scheduler.states, d.scheduler.kinds, d.scheduler.queue,
             d.frames, d.frames.used, d.slots
    ensures ok ==> d.Valid() && Inv(d.View(rsp)) && d.scheduler.idle < S.MAX_THREADS
    ensures HasRoom(old(d.frames.Model()), STACK_PAGES + spare)
            && old(d.scheduler.Model()) == S.RegisterBoot(S.Fresh, 0).0 ==>
              ok && HasRoom(d.frames.Model(), spare) && FreeSlot(d.scheduler.Model())
  {
    ghost var m := d.View(rsp);
    if HasRoom(m.ledger.frames, STACK_PAGES + spare) && m.sched == S.RegisterBoot(S.Fresh, 0).0 {
      IdleStarts(m, spare);
    }
    var id := d.Create(true, false, rsp);
    ok := id.Ok?;
    if ok {
      Enrolled(m, true);
      Started(m, true, false);
    }
    assert d.View(rsp) == Start(m, true, false);
  }

  /** What the kernel needs to come up with `spare` frames to spare. */
  ghost predicate KernelReady(base: nat, len: nat, regions: seq<Region>, config: Paging.PagingConfig, info: BootInfo,
                              bitmap: PhysRange, spare: nat)
    requires InfoOk(info, bitmap) && base < U64_LIMIT
  {
    var owned := OwnedRanges(info, PhysRange(base, len), bitmap);
    && info.kernelBase <= base < Saturate(info.kernelBase + info.kernelSize)
    && Paging.Fits(base, len, config) && RamBelow(regions, config)
    && forall limit :: IsLimit(regions, config, limit) ==> FramesReady(limit, regions, owned, bitmap.len, spare)
  }

  ghost predicate FramesReady(limit: nat, regions: seq<Region>, owned: seq<ReservedRange>, bitmapBytes: nat,
                              spare: nat)
  {
    var end := Paging.Min(limit, MAX_IDENTITY_BYTES);
    && FramesFit(end, regions, bitmapBytes, owned)
    && UsableRun(regions, owned, end, HEAP_PAGES + IST_PAGES + STACK_PAGES + spare)
  }

  /** Frames are left, and a slot. */
  ghost predicate Spare(d: Dispatcher, spare: nat)
    requires d.Valid()
    reads d, d.scheduler, d.scheduler.states, d.scheduler.kinds, d.scheduler.queue,
          d.frames, d.frames.allocatable, d.frames.used
  {
    HasRoom(d.frames.Model(), spare) && FreeSlot(d.scheduler.Model())
  }

  method MakeFrames(limit: nat, regions: seq<Region>, bitmapBytes: nat, owned: seq<ReservedRange>,
                    ghost entries: seq<Pte>, ghost base: nat, ghost plan: Plan, ghost config: Paging.PagingConfig,
                    ghost spare: nat)
    returns (r: Option<FrameAllocator>)
    requires WellFormedMap(regions) && TablesUp(entries, base, plan, regions, config) && limit == plan.limit
    ensures r.Some? ==> FreshFrames(r.value)
    ensures r.Some? ==> NewAllocator(r.value, owned) && AllSafe(entries, base, r.value) && AllUsable(r.value, regions)
    ensures FramesReady(limit, regions, owned, bitmapBytes, spare) ==>
              r.Some? && HasRoom(r.value.Model(), HEAP_PAGES + IST_PAGES + STACK_PAGES + spare)
  {
    r := InitAllocator(limit, regions, bitmapBytes, owned, entries, base, plan, config);
    if r.Some? && FramesReady(limit, regions, owned, bitmapBytes, spare) {
      NewRoom(r.value, regions, owned, Paging.Min(limit, MAX_IDENTITY_BYTES),
              HEAP_PAGES + IST_PAGES + STACK_PAGES + spare);
    }
  }

  /** Frames, heap, scheduler and idle thread, over installed tables. */
  method InitKernel(limit: nat, regions: seq<Region>, info: BootInfo, arena: PhysRange, bitmap: PhysRange,
                    ghost entries: seq<Pte>, ghost plan: Plan, ghost config: Paging.PagingConfig, ghost rsp: nat,
                    ghost spare: nat)
    returns (r: Option<Dispatcher>)
    requires WellFormedMap(regions) && InfoOk(info, bitmap) && arena.start < U64_LIMIT && BootStack(info).Holds(rsp)
    requires TablesUp(entries, arena.start, plan, regions, config) && limit == plan.limit
    ensures r.Some? ==> KernelUp(r.value, rsp, entries, arena.start, plan, regions, config,
                                 OwnedRanges(info, arena, bitmap))
    ensures r.Some? ==> FreshThreads(r.value) && FreshFrames(r.value.frames) && r.value.boot == BootStack(info)
    ensures r.Some? ==> r.value.scheduler.idle < S.MAX_THREADS
    ensures FramesReady(limit, regions, OwnedRanges(info, arena, bitmap), bitmap.len, spare) ==>
              r.Some? && Spare(r.value, spare)
  {
    var owned := OwnedRanges(info, arena, bitmap);
    var a := MakeFrames(limit, regions, bitmap.len, owned, entries, arena.start, plan, config, spare);
    if a.None? {
      return None;
    }
    r := StartThreads(a.value, info, arena, bitmap, entries, arena.start, rsp, STACK_PAGES + spare);
    if r.Some? {
      var idle := StartIdle(r.value, rsp, spare);
      if !idle {
        r := None;
      }
    }
  }

  /** The tables first. */
  method StartKernel(memory: array<byte>, base: nat, len: nat, regions: seq<Region>, config: Paging.PagingConfig,
                     info: BootInfo, bitmap: PhysRange, ghost rsp: nat, ghost spare: nat)
    returns (r: Option<Dispatcher>, ghost plan: Plan)
    requires base + len <= memory.Length <= PHYS_LIMIT && WellFormedMap(regions)
    requires config.fineGrainedBytes % BLOCK_SIZE == 0 && InfoOk(info, bitmap) && BootStack(info).Holds(rsp)
    modifies memory
    ensures Outside(memory[..], old(memory[..]), base, len)
    ensures r.Some? ==> KernelUp(r.value, rsp, Entries(memory[base..base + len]), base, plan, regions, config,
                                 OwnedRanges(info, PhysRange(base, len), bitmap))
    ensures r.Some? ==> FreshThreads(r.value) && FreshFrames(r.value.frames) && r.value.boot == BootStack(info)
    ensures r.Some? ==> r.value.scheduler.idle < S.MAX_THREADS
    ensures KernelReady(base, len, regions, config, info, bitmap, spare) ==> r.Some? && Spare(r.value, spare)
  {
    plan := Paging.PlanFor(base, 0, config);
    if base < info.kernelBase || base >= Saturate(info.kernelBase + info.kernelSize) {
      return None, plan;
    }
    var limit, planned := InstallTables(memory, base, len, regions, config);
    plan := planned;
    if limit.None? {
      return None, plan;
    }
    r := InitKernel(limit.value, regions, info, PhysRange(base, len), bitmap, Entries(memory[base..base + len]), plan,
                    config, rsp, spare);
  }

  // ----- the user side -----

  /** Attaching the user region moves no frame of the allocator: they all lie below the user GiB. */
  lemma StillSafe(before: seq<Pte>, after: seq<Pte>, plan: Plan, regions: seq<Region>, first: nat,
                  image: LoadedImage, stackStart: nat, a: FrameAllocator)
    requires a.Shape() && AllSafe(before, plan.base, a) && a.Address(a.frames) <= MAX_IDENTITY_BYTES
    requires Installed(before, after, plan, regions, first, image, stackStart)
    ensures AllSafe(after, plan.base, a)
  {
    var mappings := ImageMappings(image, stackStart);
    var pts :| OverKernel(before, after, plan, regions, first, pts, mappings);
    forall i | 0 <= i < a.frames && a.Model().allocatable[i] ensures FrameSafe(after, plan.base, a, i) {
      assert FrameSafe(before, plan.base, a, i);
      forall va: nat | a.Address(i) <= va < a.Address(i) + PAGE_SIZE
        ensures Walk(after, plan.base, plan.base, va) == Mapped(va, true, false)
      {
        BelowUser(va);
        KernelIsolated(before, after, plan, regions, first, pts, mappings, va);
      }
    }
  }

  lemma BelowUser(va: nat)
    requires va < MAX_IDENTITY_BYTES
    ensures va < VA_LIMIT && Gib(va) < USER_GIB
  {
  }

  lemma TakenClear(a: FrameAllocator, f: Frames, entries: seq<Pte>, base: nat, start: nat)
    requires a.Shape() && f.allocatable == a.Model().allocatable && AllSafe(entries, base, a)
    requires FreeRun(f, start, USER_STACK_PAGES) && a.Address(a.frames) <= MAX_IDENTITY_BYTES
    ensures StackClear(a.reserved, a.Address(start))
  {
    forall pa: nat | InFrames(a.Address(start), pa) ensures !TouchesReserved(a.reserved, pa / PAGE_SIZE * PAGE_SIZE) {
      var i := pa / PAGE_SIZE - a.firstFrame;
      FrameOf(a, start, pa);
      assert IsFree(f, i) && FrameSafe(entries, base, a, i);
    }
  }

  lemma FrameOf(a: FrameAllocator, start: nat, pa: nat)
    requires InFrames(a.Address(start), pa)
    ensures start <= pa / PAGE_SIZE - a.firstFrame < start + USER_STACK_PAGES
    ensures a.Address(pa / PAGE_SIZE - a.firstFrame) == pa / PAGE_SIZE * PAGE_SIZE
  {
  }

  datatype UserError = NoUserStack | NotMapped | NoThread(error: CreateError)

  /** The mappings are acceptable, the user GiB is not identity-mapped, and the arena has room for the tables. */
  ghost predicate RegionFits(mappings: seq<Mapping>, config: Paging.PagingConfig, len: nat) {
    && AllWellFormed(mappings) && config.maxIdentityBytes <= USER_GIB * GIB
    && TablesRoom(mappings, Paging.TablesNeeded(config), len / PAGE_SIZE)
  }

  lemma GibCount(bytes: nat)
    ensures Paging.CeilDiv(bytes, GIB) <= USER_GIB <==> bytes <= USER_GIB * GIB
  {
  }

  lemma RegionRoom(mappings: seq<Mapping>, config: Paging.PagingConfig, gibs: nat, len: nat)
    requires gibs == Paging.CeilDiv(config.maxIdentityBytes, GIB)
    ensures var first := Paging.TablesNeeded(config);
            RegionFits(mappings, config, len)
            <==> AllWellFormed(mappings) && gibs <= USER_GIB
                 && TablesRoom(mappings, first * PAGE_SIZE / PAGE_SIZE, len / PAGE_SIZE)
  {
    GibCount(config.maxIdentityBytes);
  }

  /** Where its frames are does not matter, as long as they are whole. */
  lemma AnyFrames(image: LoadedImage, stackStart: nat, config: Paging.PagingConfig, len: nat)
    requires stackStart % PAGE_SIZE == 0
    ensures RegionFits(ImageMappings(image, stackStart), config, len)
            <==> RegionFits(ImageMappings(image, 0), config, len)
  {
    var a, b := ImageMappings(image, stackStart), ImageMappings(image, 0);
    assert forall i :: 0 <= i < 2 ==> (a[i].WellFormed() <==> b[i].WellFormed()) && a[i].End() == b[i].End();
    assert forall pts: nat :: Reaches(a, pts) <==> Reaches(b, pts);
    assert forall pts: nat :: JustReaches(a, pts) <==> JustReaches(b, pts);
  }

  /** The tables in memory get the user region. */
  method InstallRegion(memory: array<byte>, base: nat, len: nat, config: Paging.PagingConfig, image: LoadedImage,
                       stackStart: nat, ghost plan: Plan, ghost regions: seq<Region>)
    returns (ok: bool)
    requires base + len <= memory.Length <= PHYS_LIMIT && MappingsFit(ImageMappings(image, stackStart))
    requires TablesUp(Entries(memory[base..base + len]), base, plan, regions, config)
    modifies memory
    ensures Outside(memory[..], old(memory[..]), base, len)
    ensures ok ==> Installed(old(Entries(memory[base..base + len])), Entries(memory[base..base + len]), plan, regions,
                             Paging.TablesNeeded(config), image, stackStart)
    ensures ok <==> RegionFits(ImageMappings(image, stackStart), config, len)
  {
    var first := Paging.TablesNeeded(config);
    RegionRoom(ImageMappings(image, stackStart), config, plan.pd, len);
    var arena := Borrow(memory, base, len);
    var mapped := InstallUser(arena, base, first * PAGE_SIZE, ImageMappings(image, stackStart), plan, regions);
    PutBack(memory, base, arena);
    ok := mapped.Ok?;
  }

  /** Frames for the user stack, clear of everything the kernel owns. */
  method UserStack(d: Dispatcher, ghost rsp: nat, ghost entries: seq<Pte>, ghost base: nat, ghost spare: nat)
    returns (r: Option<nat>)
    requires d.Valid() && Inv(d.View(rsp)) && AllSafe(entries, base, d.frames)
    requires d.frames.Address(d.frames.frames) <= MAX_IDENTITY_BYTES
    modifies d`out, d.frames, d.frames.used
    ensures d.Valid() && Inv(d.View(rsp))
    ensures r.Some? ==> StackClear(d.frames.reserved, r.value) && r.value % PAGE_SIZE == 0
    ensures HasRoom(old(d.frames.Model()), USER_STACK_PAGES + spare) ==> r.Some? && HasRoom(d.frames.Model(), spare)
  {
    ghost var was := d.frames.Model();
    RoomStepped(d.View(rsp).ledger, USER_STACK_PAGES, spare);
    var range := d.TakeFrames(USER_STACK_PAGES, rsp);
    if range.None? {
      return None;
    }
    RangeClear(d.frames, was, entries, base, range.value.start);
    r := Some(range.value.start);
  }

  lemma RoomStepped(l: Ledger, n: nat, spare: nat)
    requires Balanced(l) && 0 < n
    ensures HasRoom(l.frames, n + spare) ==>
              AllocContiguous(l.frames, n).1.Some? && HasRoom(FrameModel.Step(l, AllocOp(n)).frames, spare)
  {
    if HasRoom(l.frames, n + spare) {
      RoomAfter(l.frames, n, spare);
    }
  }

  lemma RangeClear(a: FrameAllocator, f: Frames, entries: seq<Pte>, base: nat, address: nat)
    requires a.Shape() && f.allocatable == a.Model().allocatable && AllSafe(entries, base, a)
    requires exists start: nat :: address == a.Address(start) && FreeRun(f, start, USER_STACK_PAGES)
    requires a.Address(a.frames) <= MAX_IDENTITY_BYTES
    ensures StackClear(a.reserved, address) && address % PAGE_SIZE == 0
  {
    var start: nat :| address == a.Address(start) && FreeRun(f, start, USER_STACK_PAGES);
    TakenClear(a, f, entries, base, start);
  }

  /** Memory is not one of the kernel's own tables. */
  ghost predicate OwnMemory(d: Dispatcher, memory: array<byte>) {
    && memory as object != d.frames.used && memory as object != d.frames.allocatable && memory as object != d.slots
    && memory as object != d.scheduler.states && memory as object != d.scheduler.kinds
    && memory as object != d.scheduler.queue
  }

  /** Physical and linked addresses of the image do not overflow. */
  predicate InRange(image: LoadedImage) {
    image.base + image.size <= PHYS_LIMIT && UserVaddr(image) + image.size < U64_LIMIT
  }

  /** The user stack and the user region. */
  method MapUser(d: Dispatcher, memory: array<byte>, base: nat, len: nat, config: Paging.PagingConfig,
                 image: LoadedImage, ghost rsp: nat, ghost plan: Plan, ghost regions: seq<Region>, ghost spare: nat)
    returns (r: Result<nat, UserError>)
    requires base + len <= memory.Length <= PHYS_LIMIT && OwnMemory(d, memory)
    requires InRange(image)
    requires KernelUp(d, rsp, Entries(memory[base..base + len]), base, plan, regions, config, d.frames.reserved)
    modifies memory, d`out, d.frames, d.frames.used
    ensures Outside(memory[..], old(memory[..]), base, len) && d.Valid() && Inv(d.View(rsp))
    ensures r.Ok? ==> StackClear(d.frames.reserved, r.value)
    ensures r.Ok? ==> Installed(old(Entries(memory[base..base + len])), Entries(memory[base..base + len]), plan,
                                regions, Paging.TablesNeeded(config), image, r.value)
    ensures HasRoom(old(d.frames.Model()), USER_STACK_PAGES + spare)
            && RegionFits(ImageMappings(image, 0), config, len) ==>
              r.Ok? && HasRoom(d.frames.Model(), spare)
  {
    var stack := UserStack(d, rsp, Entries(memory[base..base + len]), base, spare);
    if stack.None? {
      return Err(NoUserStack);
    }
    AnyFrames(image, stack.value, config, len);
    var ok := InstallRegion(memory, base, len, config, image, stack.value, plan, regions);
    r := if ok then Ok(stack.value) else Err(NotMapped);
  }

  lemma UserStarts(m: Machine)
    requires Inv(m) && HasRoom(m.ledger.frames, STACK_PAGES) && FreeSlot(m.sched)
    ensures Enrol(m, false).1.Ok? && AllocContiguous(m.ledger.frames, STACK_PAGES).1.Some?
  {
    S.CreateOutcome(m.sched);
    RoomAfter(m.ledger.frames, STACK_PAGES, 0);
  }

  method UserThread(d: Dispatcher, ghost rsp: nat) returns (r: Result<nat, UserError>)
    requires d.Valid() && Inv(d.View(rsp))
    modifies d`out, d.scheduler, d.scheduler.states, d.scheduler.kinds, d.scheduler.queue,
             d.frames, d.frames.used, d.slots
    ensures r.Ok? ==> d.Valid() && Inv(d.View(rsp)) && d.scheduler.idle == old(d.scheduler.idle)
    ensures old(Spare(d, STACK_PAGES)) ==> r.Ok?
  {
    ghost var m := d.View(rsp);
    if HasRoom(m.ledger.frames, STACK_PAGES) && FreeSlot(m.sched) {
      UserStarts(m);
    }
    var id := d.Create(false, true, rsp);
    assert d.View(rsp).sched.idle == m.sched.idle;
    r := if id.Ok? then Ok(id.value) else Err(NoThread(id.error));
  }

  /** And the user thread. */
  method StartUser(d: Dispatcher, memory: array<byte>, base: nat, len: nat, config: Paging.PagingConfig,
                   image: LoadedImage, ghost rsp: nat, ghost plan: Plan, ghost regions: seq<Region>)
    returns (r: Result<nat, UserError>, stackStart: nat)
    requires base + len <= memory.Length <= PHYS_LIMIT && OwnMemory(d, memory)
    requires InRange(image)
    requires KernelUp(d, rsp, Entries(memory[base..base + len]), base, plan, regions, config, d.frames.reserved)
    modifies memory, d`out, d.scheduler, d.scheduler.states, d.scheduler.kinds, d.scheduler.queue,
             d.frames, d.frames.used, d.slots
    ensures Outside(memory[..], old(memory[..]), base, len)
    ensures r.Ok? ==> d.Valid() && Inv(d.View(rsp)) && StackClear(d.frames.reserved, stackStart)
    ensures r.Ok? ==> Installed(old(Entries(memory[base..base + len])), Entries(memory[base..base + len]), plan,
                                regions, Paging.TablesNeeded(config), image, stackStart)
    ensures r.Ok? ==> d.scheduler.idle == old(d.scheduler.idle)
    ensures old(Spare(d, USER_STACK_PAGES + STACK_PAGES)) && RegionFits(ImageMappings(image, 0), config, len) ==> r.Ok?
  {
    var mapped := MapUser(d, memory, base, len, config, image, rsp, plan, regions, STACK_PAGES);
    if mapped.Err? {
      return Err(mapped.error), 0;
    }
    r := UserThread(d, rsp);
    stackStart := mapped.value;
  }

  // ----- the whole way -----

  lemma OutsideTwice(memory: seq<byte>, between: seq<byte>, before: seq<byte>, base: nat, len: nat)
    requires Outside(memory, between, base, len) && Outside(between, before, base, len)
    ensures Outside(memory, before, base, len)
  {
  }

  /** Both images are in memory, on pages of their own, and the table arena is part of the kernel's. */
  ghost predicate BothLoaded(memory: seq<byte>, kernel: seq<byte>, user: seq<byte>, images: (LoadedImage, LoadedImage),
                             kernelPages: seq<nat>, userPages: seq<nat>, base: nat, len: nat)
  {
    && Landed(images.0, kernel, kernelPages, memory) && Landed(images.1, user, userPages, memory)
    && (forall p :: p in kernelPages ==> p !in userPages) && |memory| <= PHYS_LIMIT
    && ArenaIn(ImageTrace(kernel).segments, base, len) && Uniform(ImageTrace(user).segments, images.1.vaddrDelta)
  }

  /** Both images stand, and user mode is confined to its own. */
  ghost predicate BothUp(memory: seq<byte>, entries: seq<Pte>, base: nat, len: nat, kernel: seq<byte>, user: seq<byte>,
                         image: LoadedImage, stackStart: nat, info: BootInfo, bitmap: PhysRange)
  {
    var k, u := ImageTrace(kernel).segments, ImageTrace(user).segments;
    && Sound(kernel, k) && Sound(user, u)
    && InPlaceBut(memory, kernel, k, base, len) && Sees(entries, base, memory, user, u)
    && Reach(entries, base, image, stackStart) && Isolated(entries, base, image, info, PhysRange(base, len), bitmap)
    && (NoGaps(image, u) ==> KernelHidden(entries, base, k))
  }

  lemma BothStay(memory: seq<byte>, loaded: seq<byte>, kernel: seq<byte>, user: seq<byte>,
                 images: (LoadedImage, LoadedImage), kernelPages: seq<nat>, userPages: seq<nat>, base: nat, len: nat)
    requires BothLoaded(loaded, kernel, user, images, kernelPages, userPages, base, len)
    requires Outside(memory, loaded, base, len)
    ensures InPlaceBut(memory, kernel, ImageTrace(kernel).segments, base, len)
    ensures HandedOver(images.1, user, memory)
  {
    var k, u := ImageTrace(kernel).segments, ImageTrace(user).segments;
    KernelKept(memory, loaded, kernel, k, base, len);
    UserKept(memory, loaded, user, k, u, kernelPages, userPages, base, len);
  }

  lemma BothConfined(memory: seq<byte>, between: seq<byte>, loaded: seq<byte>, before: seq<Pte>, after: seq<Pte>,
                     plan: Plan, regions: seq<Region>, first: nat, kernel: seq<byte>, user: seq<byte>,
                     images: (LoadedImage, LoadedImage), kernelPages: seq<nat>, userPages: seq<nat>, stackStart: nat,
                     base: nat, len: nat, info: BootInfo, bitmap: PhysRange)
    requires BothLoaded(loaded, kernel, user, images, kernelPages, userPages, base, len) && plan.base == base
    requires Outside(memory, between, base, len) && Outside(between, loaded, base, len)
    requires Installed(before, after, plan, regions, first, images.1, stackStart)
    requires InfoOk(info, bitmap) && info.kernelBase == images.0.base && info.kernelSize == images.0.size
    requires base < U64_LIMIT && StackClear(OwnedRanges(info, PhysRange(base, len), bitmap), stackStart)
    ensures BothUp(memory, after, base, len, kernel, user, images.1, stackStart, info, bitmap)
  {
    var k, u, arena := ImageTrace(kernel).segments, ImageTrace(user).segments, PhysRange(base, len);
    OutsideTwice(memory, between, loaded, base, len);
    BothStay(memory, loaded, kernel, user, images, kernelPages, userPages, base, len);
    SeesInstalled(before, after, plan, regions, first, images.1, user, memory, stackStart);
    ReachExact(before, after, plan, regions, first, images.1, stackStart);
    OwnedIsolated(after, base, images.1, stackStart, info, arena, bitmap);
    if NoGaps(images.1, u) {
      NoGapsHide(after, base, k, u, kernelPages, userPages, images.1, info, arena, bitmap);
    }
  }

  /** If the memory map avoids a user image without gaps, no frame but the user stack's is in user mode's reach. */
  ghost predicate Shielded(entries: seq<Pte>, base: nat, a: FrameAllocator, image: LoadedImage, user: seq<Segment>,
                           stackStart: nat, regions: seq<Region>)
    requires a.Shape()
    reads a.allocatable
  {
    NoGaps(image, user) && MapAvoids(regions, user) ==> FramesHidden(entries, base, a, MayIssue(a), stackStart)
  }

  lemma Shields(memory: seq<byte>, entries: seq<Pte>, base: nat, len: nat, kernel: seq<byte>, user: seq<byte>,
                image: LoadedImage, stackStart: nat, info: BootInfo, bitmap: PhysRange, regions: seq<Region>,
                a: FrameAllocator)
    requires BothUp(memory, entries, base, len, kernel, user, image, stackStart, info, bitmap)
    requires a.Shape() && AllUsable(a, regions) && Describes(image, user)
    ensures Shielded(entries, base, a, image, ImageTrace(user).segments, stackStart, regions)
  {
    var u := ImageTrace(user).segments;
    if NoGaps(image, u) && MapAvoids(regions, u) {
      MapHides(entries, base, image, stackStart, a, regions, u);
    }
  }

  /**
   The user address space is up, with an idle thread to fall back on: both images stand, user mode
   reaches what it should, and the machine invariant holds.
   */
  ghost predicate UserUp(d: Dispatcher, rsp: nat, memory: seq<byte>, base: nat, len: nat, kernel: seq<byte>,
                         user: seq<byte>, image: LoadedImage, stackStart: nat, info: BootInfo, bitmap: PhysRange,
                         regions: seq<Region>)
    requires base + len <= |memory|
    reads d, d.scheduler, d.scheduler.states, d.scheduler.kinds, d.scheduler.queue,
          d.frames, d.frames.allocatable, d.frames.used, d.slots
  {
    var entries := Entries(memory[base..base + len]);
    && d.Valid() && Inv(d.View(rsp)) && d.scheduler.idle < S.MAX_THREADS && AllSafe(entries, base, d.frames)
    && BothUp(memory, entries, base, len, kernel, user, image, stackStart, info, bitmap)
    && Shielded(entries, base, d.frames, image, ImageTrace(user).segments, stackStart, regions)
  }

  /** An image linked at one distance from where it is loaded. */
  ghost predicate LinkedUniformly(segments: seq<Segment>) {
    segments != [] ==> Uniform(segments, AsI64(segments[0].vaddr) - AsI64(segments[0].paddr))
  }

  /** The hand-over data, with the kernel's place filled in. */
  function Filled(handover: BootInfo, image: LoadedImage): BootInfo {
    handover.(kernelBase := image.base, kernelSize := image.size)
  }

  /** What it takes to come up: room for tables and bitmaps, a run of usable frames, an acceptable user image. */
  ghost predicate BootReady(image: LoadedImage, base: nat, len: nat, regions: seq<Region>, config: Paging.PagingConfig,
                            info: BootInfo, bitmap: PhysRange)
    requires InfoOk(info, bitmap) && base < U64_LIMIT
  {
    && KernelReady(base, len, regions, config, info, bitmap, USER_STACK_PAGES + STACK_PAGES)
    && RegionFits(ImageMappings(image, 0), config, len)
  }

  /** The user side, over a kernel that is up. */
  method BringUser(d: Dispatcher, memory: array<byte>, ghost loaded: seq<byte>, ghost kernel: seq<byte>,
                   ghost user: seq<byte>, images: (LoadedImage, LoadedImage), ghost kernelPages: seq<nat>,
                   ghost userPages: seq<nat>, base: nat, len: nat, config: Paging.PagingConfig, ghost info: BootInfo,
                   ghost bitmap: PhysRange, ghost rsp: nat, ghost plan: Plan, ghost regions: seq<Region>)
    returns (r: Option<nat>)
    requires base + len <= memory.Length <= PHYS_LIMIT && OwnMemory(d, memory) && d.scheduler.idle < S.MAX_THREADS
    requires BothLoaded(loaded, kernel, user, images, kernelPages, userPages, base, len) && InRange(images.1)
    requires Outside(memory[..], loaded, base, len)
    requires InfoOk(info, bitmap) && info.kernelBase == images.0.base && info.kernelSize == images.0.size
    requires KernelUp(d, rsp, Entries(memory[base..base + len]), base, plan, regions, config,
                      OwnedRanges(info, PhysRange(base, len), bitmap))
    modifies memory, d`out, d.scheduler, d.scheduler.states, d.scheduler.kinds, d.scheduler.queue,
             d.frames, d.frames.used, d.slots
    ensures r.Some? ==> UserUp(d, rsp, memory[..], base, len, kernel, user, images.1, r.value, info, bitmap, regions)
    ensures old(Spare(d, USER_STACK_PAGES + STACK_PAGES)) && RegionFits(ImageMappings(images.1, 0), config, len) ==>
              r.Some?
  {
    ghost var between, before := memory[..], Entries(memory[base..base + len]);
    var started, stackStart := StartUser(d, memory, base, len, config, images.1, rsp, plan, regions);
    if started.Err? {
      return None;
    }
    ghost var after, first := Entries(memory[base..base + len]), Paging.TablesNeeded(config);
    AllConfined(memory[..], between, loaded, before, after, plan, regions, first, kernel, user, images, kernelPages,
                userPages, stackStart, base, len, info, bitmap, d.frames);
    r := Some(stackStart);
  }

  lemma AllConfined(memory: seq<byte>, between: seq<byte>, loaded: seq<byte>, before: seq<Pte>, after: seq<Pte>,
                    plan: Plan, regions: seq<Region>, first: nat, kernel: seq<byte>, user: seq<byte>,
                    images: (LoadedImage, LoadedImage), kernelPages: seq<nat>, userPages: seq<nat>, stackStart: nat,
                    base: nat, len: nat, info: BootInfo, bitmap: PhysRange, a: FrameAllocator)
    requires BothLoaded(loaded, kernel, user, images, kernelPages, userPages, base, len) && plan.base == base
    requires Outside(memory, between, base, len) && Outside(between, loaded, base, len)
    requires Installed(before, after, plan, regions, first, images.1, stackStart)
    requires InfoOk(info, bitmap) && info.kernelBase == images.0.base && info.kernelSize == images.0.size
    requires base < U64_LIMIT && StackClear(OwnedRanges(info, PhysRange(base, len), bitmap), stackStart)
    requires a.Shape() && AllSafe(before, base, a) && AllUsable(a, regions)
    requires a.Address(a.frames) <= MAX_IDENTITY_BYTES
    ensures BothUp(memory, after, base, len, kernel, user, images.1, stackStart, info, bitmap)
    ensures AllSafe(after, base, a)
    ensures Shielded(after, base, a, images.1, ImageTrace(user).segments, stackStart, regions)
  {
    BothConfined(memory, between, loaded, before, after, plan, regions, first, kernel, user, images, kernelPages,
                 userPages, stackStart, base, len, info, bitmap);
    StillSafe(before, after, plan, regions, first, images.1, stackStart, a);
    Shields(memory, after, base, len, kernel, user, images.1, stackStart, info, bitmap, regions, a);
  }

  lemma LoadedInRange(memory: seq<byte>, kernel: seq<byte>, user: seq<byte>, images: (LoadedImage, LoadedImage),
                      kernelPages: seq<nat>, userPages: seq<nat>, base: nat, len: nat)
    requires BothLoaded(memory, kernel, user, images, kernelPages, userPages, base, len)
    ensures InRange(images.1)
  {
    VaddrNotNegative(images.1, user);
  }

  /** What the kernel does once it is entered. */
  method BringUp(memory: array<byte>, ghost kernel: seq<byte>, ghost user: seq<byte>,
                 images: (LoadedImage, LoadedImage), ghost kernelPages: seq<nat>, ghost userPages: seq<nat>, base: nat,
                 len: nat, regions: seq<Region>, config: Paging.PagingConfig, info: BootInfo, bitmap: PhysRange,
                 ghost rsp: nat)
    returns (r: Option<(Dispatcher, nat)>)
    requires base + len <= memory.Length && WellFormedMap(regions) && config.fineGrainedBytes % BLOCK_SIZE == 0
    requires BothLoaded(memory[..], kernel, user, images, kernelPages, userPages, base, len)
    requires InfoOk(info, bitmap) && info.kernelBase == images.0.base && info.kernelSize == images.0.size
    requires BootStack(info).Holds(rsp)
    modifies memory
    ensures r.Some? ==> UserUp(r.value.0, rsp, memory[..], base, len, kernel, user, images.1, r.value.1, info, bitmap,
                               regions)
    ensures BootReady(images.1, base, len, regions, config, info, bitmap) ==> r.Some?
  {
    ghost var loaded := memory[..];
    var d, plan := StartKernel(memory, base, len, regions, config, info, bitmap, rsp, USER_STACK_PAGES + STACK_PAGES);
    if d.None? {
      return None;
    }
    LoadedInRange(loaded, kernel, user, images, kernelPages, userPages, base, len);
    var stackStart := BringUser(d.value, memory, loaded, kernel, user, images, kernelPages, userPages, base, len,
                                config, info, bitmap, rsp, plan, regions);
    r := if stackStart.Some? then Some((d.value, stackStart.value)) else None;
  }

  lemma JustLoaded(memory: seq<byte>, kernel: seq<byte>, user: seq<byte>, images: (LoadedImage, LoadedImage),
                   kernelPages: seq<nat>, userPages: seq<nat>, base: nat, len: nat)
    requires Landed(images.0, kernel, kernelPages, memory) && Landed(images.1, user, userPages, memory)
    requires (forall p :: p in kernelPages ==> p !in userPages) && |memory| <= PHYS_LIMIT
    requires ArenaIn(ImageTrace(kernel).segments, base, len) && LinkedUniformly(ImageTrace(user).segments)
    ensures BothLoaded(memory, kernel, user, images, kernelPages, userPages, base, len)
  {
  }

  /** What the boot loader does. */
  method LoadForBoot(fw: Firmware, kernel: seq<byte>, user: seq<byte>, ghost base: nat, ghost len: nat)
    returns (r: Option<(LoadedImage, LoadedImage)>, ghost kernelPages: seq<nat>, ghost userPages: seq<nat>)
    requires fw.Valid() && fw.memory.Length <= PHYS_LIMIT && ArenaIn(ImageTrace(kernel).segments, base, len)
    requires EndsFit(ImageTrace(kernel).segments) && EndsFit(ImageTrace(user).segments)
    requires LinkedUniformly(ImageTrace(user).segments)
    modifies fw, fw.memory
    ensures r.Some? ==> BothLoaded(fw.memory[..], kernel, user, r.value, kernelPages, userPages, base, len)
    ensures BothLoadable(old(fw.available), kernel, user) ==> r.Some?
  {
    var both;
    both, kernelPages, userPages := LoadBoth(fw, kernel, user);
    r := None;
    if both.Ok? {
      JustLoaded(fw.memory[..], kernel, user, both.value, kernelPages, userPages, base, len);
      r := Some(both.value);
    }
  }

  /**
   From two image files to a user thread, all in one physical memory: user mode then reads its image
   as the file prescribes, and the kernel image outside the table arena is as loaded.
   */
  method LoadAndMap(fw: Firmware, kernel: seq<byte>, user: seq<byte>, base: nat, len: nat, regions: seq<Region>,
                    config: Paging.PagingConfig, handover: BootInfo, bitmap: PhysRange, ghost rsp: nat)
    returns (r: Option<(Dispatcher, nat)>, images: Option<(LoadedImage, LoadedImage)>)
    requires fw.Valid() && base + len <= fw.memory.Length <= PHYS_LIMIT && WellFormedMap(regions)
    requires config.fineGrainedBytes % BLOCK_SIZE == 0 && InfoOk(handover, bitmap) && BootStack(handover).Holds(rsp)
    requires EndsFit(ImageTrace(kernel).segments) && EndsFit(ImageTrace(user).segments)
    requires ArenaIn(ImageTrace(kernel).segments, base, len) && LinkedUniformly(ImageTrace(user).segments)
    modifies fw, fw.memory
    ensures images.Some? ==> Describes(images.value.0, kernel) && Describes(images.value.1, user)
    ensures r.Some? ==> images.Some? && UserUp(r.value.0, rsp, fw.memory[..], base, len, kernel, user, images.value.1,
                                               r.value.1, Filled(handover, images.value.0), bitmap, regions)
    ensures BothLoadable(old(fw.available), kernel, user) ==> images.Some?
    ensures images.Some?
            && BootReady(images.value.1, base, len, regions, config, Filled(handover, images.value.0), bitmap) ==>
              r.Some?
  {
    r := None;
    ghost var kernelPages, userPages;
    images, kernelPages, userPages := LoadForBoot(fw, kernel, user, base, len);
    if images.Some? {
      r := BringUp(fw.memory, kernel, user, images.value, kernelPages, userPages, base, len, regions, config,
                   Filled(handover, images.value.0), bitmap, rsp);
    }
  }
}

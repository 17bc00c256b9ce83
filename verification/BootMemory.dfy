/** The kernel's memory at boot: page tables first, then a frame allocator that agrees with them. */
module BootMemory {
  import opened Bitmap
  import opened FrameAllocator
  import opened FrameModel
  import opened LittleEndian
  import opened MemoryMap
  import opened Mmu
  import opened PageEntries
  import opened Paging
  import opened PagingModel
  import opened Wrappers

  const MIN_FREE_ADDR: nat := 0x10_0000
  const MAX_IDENTITY_BYTES: nat := 4 * GIB

  datatype BootInfo = BootInfo(address: nat, kernelBase: nat, kernelSize: nat, stackTop: nat, stackSize: nat,
                               mmapPtr: nat, mmapLen: nat, mmapDescSize: nat)

  function Saturate(x: nat): nat { if x < U64_LIMIT then x else U64_LIMIT - 1 }

  /** Widened to whole pages, with saturating arithmetic. */
  function PageRange(start: nat, len: nat): (r: ReservedRange)
    requires start < U64_LIMIT
    ensures 0 < len ==> r.start <= start && (start + len <= r.end || r.end == U64_LIMIT - PAGE_SIZE)
    ensures r.start % PAGE_SIZE == 0 && r.end % PAGE_SIZE == 0
  {
    if len == 0 then ReservedRange(0, 0)
    else
      ReservedRange(start / PAGE_SIZE * PAGE_SIZE,
                    Saturate(Saturate(start + len) + PAGE_SIZE - 1) / PAGE_SIZE * PAGE_SIZE)
  }

  /** Everything the kernel owns and must never hand out. */
  function OwnedRanges(info: BootInfo, arena: PhysRange, bitmap: PhysRange): seq<ReservedRange>
    requires info.kernelBase < U64_LIMIT && info.stackTop < U64_LIMIT
    requires info.address < U64_LIMIT && info.mmapPtr < U64_LIMIT
    requires arena.start < U64_LIMIT && bitmap.start < U64_LIMIT
  {
    var stackStart := if info.stackTop < info.stackSize then 0 else info.stackTop - info.stackSize;
    [PageRange(info.kernelBase, info.kernelSize), PageRange(stackStart, info.stackSize),
     PageRange(info.address / PAGE_SIZE * PAGE_SIZE, PAGE_SIZE),
     PageRange(info.mmapPtr, Saturate(info.mmapLen * info.mmapDescSize)),
     PageRange(arena.start, arena.len), PageRange(bitmap.start, bitmap.len),
     ReservedRange(0, 0), ReservedRange(0, 0)]
  }

  /** What the boot loader reports fits in its 64-bit fields, and the boot stack is one. */
  ghost predicate InfoOk(info: BootInfo, bitmap: PhysRange) {
    && info.kernelBase < U64_LIMIT && info.stackTop < U64_LIMIT && info.address < U64_LIMIT && info.mmapPtr < U64_LIMIT
    && bitmap.start < U64_LIMIT && info.mmapLen * info.mmapDescSize < U64_LIMIT && 0 < info.stackSize < info.stackTop
  }

  predicate Within(x: nat, start: nat, len: nat) { start <= x < start + len }

  /** The kernel image, its boot stack, the hand-over data, the page tables and the frame bitmap. */
  ghost predicate Owns(info: BootInfo, arena: PhysRange, bitmap: PhysRange, x: nat) {
    || Within(x, info.kernelBase, info.kernelSize)
    || info.stackTop - info.stackSize <= x < info.stackTop
    || Within(x, info.address / PAGE_SIZE * PAGE_SIZE, PAGE_SIZE)
    || Within(x, info.mmapPtr, info.mmapLen * info.mmapDescSize)
    || Within(x, arena.start, arena.len)
    || Within(x, bitmap.start, bitmap.len)
  }

  lemma PageRangeHolds(start: nat, len: nat, x: nat)
    requires start < U64_LIMIT && Within(x, start, len) && x < U64_LIMIT - PAGE_SIZE
    ensures PageRange(start, len).Overlaps(x / PAGE_SIZE * PAGE_SIZE, x / PAGE_SIZE * PAGE_SIZE + PAGE_SIZE)
  {
  }

  /** A frame clear of the reserved ranges holds no byte the kernel owns. */
  lemma OwnedKept(info: BootInfo, arena: PhysRange, bitmap: PhysRange, x: nat)
    requires InfoOk(info, bitmap) && arena.start < U64_LIMIT
    requires Owns(info, arena, bitmap, x) && x < U64_LIMIT - PAGE_SIZE
    ensures TouchesReserved(OwnedRanges(info, arena, bitmap), x / PAGE_SIZE * PAGE_SIZE)
  {
    var ranges := OwnedRanges(info, arena, bitmap);
    var page := x / PAGE_SIZE * PAGE_SIZE;
    var stackStart := if info.stackTop < info.stackSize then 0 else info.stackTop - info.stackSize;
    var k :=
      if Within(x, info.kernelBase, info.kernelSize) then 0
      else if info.stackTop - info.stackSize <= x < info.stackTop then 1
      else if Within(x, info.address / PAGE_SIZE * PAGE_SIZE, PAGE_SIZE) then 2
      else if Within(x, info.mmapPtr, info.mmapLen * info.mmapDescSize) then 3
      else if Within(x, arena.start, arena.len) then 4 else 5;
    match k {
      case 0 => PageRangeHolds(info.kernelBase, info.kernelSize, x);
      case 1 => PageRangeHolds(stackStart, info.stackSize, x);
      case 2 => PageRangeHolds(info.address / PAGE_SIZE * PAGE_SIZE, PAGE_SIZE, x);
      case 3 => PageRangeHolds(info.mmapPtr, info.mmapLen * info.mmapDescSize, x);
      case 4 => PageRangeHolds(arena.start, arena.len, x);
      case _ => PageRangeHolds(bitmap.start, bitmap.len, x);
    }
    assert ranges[k].Overlaps(page, page + PAGE_SIZE);
  }

  lemma PageRangeIff(start: nat, len: nat, page: nat)
    requires start < U64_LIMIT && page % PAGE_SIZE == 0 && page + 2 * PAGE_SIZE < U64_LIMIT
    ensures PageRange(start, len).Overlaps(page, page + PAGE_SIZE) <==>
            exists x: nat :: Within(x, start, len) && page <= x < page + PAGE_SIZE
  {
    if PageRange(start, len).Overlaps(page, page + PAGE_SIZE) {
      RangeMeets(start, len, page);
      var x := if start < page then page else start;
      assert Within(x, start, len) && page <= x < page + PAGE_SIZE;
    }
    if x: nat :| Within(x, start, len) && page <= x < page + PAGE_SIZE {
      PageRangeHolds(start, len, x);
      assert x / PAGE_SIZE * PAGE_SIZE == page;
    }
  }

  lemma RangeMeets(start: nat, len: nat, page: nat)
    requires start < U64_LIMIT && page % PAGE_SIZE == 0 && page + 2 * PAGE_SIZE < U64_LIMIT
    requires PageRange(start, len).Overlaps(page, page + PAGE_SIZE)
    ensures 0 < len && start < page + PAGE_SIZE && page < start + len
  {
  }

  ghost predicate OwnsIn(info: BootInfo, arena: PhysRange, bitmap: PhysRange, page: nat) {
    exists x: nat :: Owns(info, arena, bitmap, x) && page <= x < page + PAGE_SIZE
  }

  lemma PageOf(x: nat, page: nat)
    requires page % PAGE_SIZE == 0 && page <= x < page + PAGE_SIZE
    ensures x / PAGE_SIZE * PAGE_SIZE == page
  {
  }

  /** Reserved are exactly the pages with an owned byte. */
  lemma OwnedExact(info: BootInfo, arena: PhysRange, bitmap: PhysRange, page: nat)
    requires InfoOk(info, bitmap) && arena.start < U64_LIMIT
    requires page % PAGE_SIZE == 0 && page + 2 * PAGE_SIZE < U64_LIMIT
    ensures TouchesReserved(OwnedRanges(info, arena, bitmap), page) <==> OwnsIn(info, arena, bitmap, page)
  {
    var ranges := OwnedRanges(info, arena, bitmap);
    if x: nat :| Owns(info, arena, bitmap, x) && page <= x < page + PAGE_SIZE {
      OwnedKept(info, arena, bitmap, x);
      PageOf(x, page);
    }
    if TouchesReserved(ranges, page) {
      var i :| 0 <= i < |ranges| && ranges[i].Overlaps(page, page + PAGE_SIZE);
      OwnedRange(info, arena, bitmap, page, i);
    }
  }

  lemma OwnedRange(info: BootInfo, arena: PhysRange, bitmap: PhysRange, page: nat, i: nat)
    requires InfoOk(info, bitmap) && arena.start < U64_LIMIT && i < |OwnedRanges(info, arena, bitmap)|
    requires page % PAGE_SIZE == 0 && page + 2 * PAGE_SIZE < U64_LIMIT
    requires OwnedRanges(info, arena, bitmap)[i].Overlaps(page, page + PAGE_SIZE)
    ensures OwnsIn(info, arena, bitmap, page)
  {
    var start, len :=
      if i == 0 then info.kernelBase else if i == 1 then info.stackTop - info.stackSize
      else if i == 2 then info.address / PAGE_SIZE * PAGE_SIZE else if i == 3 then info.mmapPtr
      else if i == 4 then arena.start else bitmap.start,
      if i == 0 then info.kernelSize else if i == 1 then info.stackSize
      else if i == 2 then PAGE_SIZE else if i == 3 then info.mmapLen * info.mmapDescSize
      else if i == 4 then arena.len else bitmap.len;
    PageRangeIff(start, len, page);
    var x: nat :| Within(x, start, len) && page <= x < page + PAGE_SIZE;
    assert Owns(info, arena, bitmap, x);
  }

  /** Fine-grained tables come in whole blocks, as the configuration demands. */
  lemma WholeBlocks(base: nat, top: nat, config: PagingConfig)
    requires config.fineGrainedBytes % BLOCK_SIZE == 0
    ensures var plan := PlanFor(base, top, config);
            && config.fineGrainedBytes == plan.pt * BLOCK_SIZE
            && plan.fineLimit == Min(config.fineGrainedBytes, plan.limit)
  {
  }

  /** A usable frame of the window is mapped to itself, for the kernel only, and writable. */
  lemma UsableMapped(plan: Plan, regions: seq<Region>, reserved: seq<ReservedRange>, fine: nat, frame: nat, va: nat)
    requires PlanOk(plan) && fine == plan.pt * BLOCK_SIZE && plan.fineLimit == Min(fine, plan.limit)
    requires Usable(regions, |regions|, reserved, frame)
    requires MIN_FREE_ADDR <= frame * PAGE_SIZE && (frame + 1) * PAGE_SIZE <= plan.limit
    requires frame * PAGE_SIZE <= va < (frame + 1) * PAGE_SIZE
    ensures Policy(plan, regions, va) == Mapped(va, true, false)
  {
    var i :| 0 <= i < |regions| && Holds(regions[i], frame);
    assert regions[i].kind.IsRam() && regions[i].base <= va < regions[i].End();
    WholeBlocksCoverRam(plan, regions, va, fine);
  }

  /** Frame `i` of the allocator holds no owned byte; at its own address only the kernel reaches it. */
  ghost predicate FrameSafe(entries: seq<Pte>, base: nat, a: FrameAllocator, i: nat) {
    && !TouchesReserved(a.reserved, a.Address(i))
    && forall va: nat :: a.Address(i) <= va < a.Address(i) + PAGE_SIZE ==>
                         Walk(entries, base, base, va) == Mapped(va, true, false)
  }

  ghost predicate AllSafe(entries: seq<Pte>, base: nat, a: FrameAllocator)
    requires a.Shape()
    reads a.allocatable
  {
    var bits := Bits(a.allocatable[..], a.frames);
    forall i :: 0 <= i < a.frames && bits[i] ==> FrameSafe(entries, base, a, i)
  }

  /** The frames that may be handed out are exactly the usable ones of the window. */
  ghost predicate AllUsable(a: FrameAllocator, regions: seq<Region>)
    requires a.Shape()
    reads a.allocatable
  {
    var bits := Bits(a.allocatable[..], a.frames);
    forall i :: 0 <= i < a.frames ==> (bits[i] <==> Usable(regions, |regions|, a.reserved, a.firstFrame + i))
  }

  /** The kernel's tables stand at `base`, as planned. */
  ghost predicate TablesUp(entries: seq<Pte>, base: nat, plan: Plan, regions: seq<Region>, config: PagingConfig) {
    && PlanOk(plan) && Built(entries, plan, regions) && plan.base == base
    && TablesNeeded(config) == 2 + plan.pd + plan.pt && plan.pd == CeilDiv(config.maxIdentityBytes, GIB)
    && config.fineGrainedBytes == plan.pt * BLOCK_SIZE && plan.fineLimit == Min(config.fineGrainedBytes, plan.limit)
  }

  /** There is something to map. */
  ghost predicate RamBelow(regions: seq<Region>, config: PagingConfig) {
    exists top :: IsRamTop(regions, top) && 0 < Min(top, config.maxIdentityBytes)
  }

  /** Where the identity mapping ends. */
  ghost predicate IsLimit(regions: seq<Region>, config: PagingConfig, limit: nat) {
    exists top :: IsRamTop(regions, top) && limit == Min(top, config.maxIdentityBytes)
  }

  /** Builds the kernel's tables and reports how far they map. */
  method Install(arena: array<byte>, base: nat, regions: seq<Region>, config: PagingConfig)
    returns (limit: Option<nat>, ghost plan: Plan)
    requires base + arena.Length <= PHYS_LIMIT && config.fineGrainedBytes % BLOCK_SIZE == 0
    modifies arena
    ensures limit.Some? <==> Fits(base, arena.Length, config) && RamBelow(regions, config)
    ensures limit.Some? ==> TablesUp(Entries(arena[..]), base, plan, regions, config) && limit.value == plan.limit
    ensures limit.Some? ==> IsLimit(regions, config, limit.value)
  {
    plan := PlanFor(base, 0, config);
    var built := Build(arena, base, regions, config);
    if built.Err? {
      return None, plan;
    }
    ghost var top :| IsRamTop(regions, top)
                     && ReportedFor(Entries(arena[..]), PlanFor(base, top, config), regions, built.value)
                     && built.value.tablesUsed == TablesNeeded(config);
    plan := PlanFor(base, top, config);
    TablesPlanned(plan, base, top, config, arena.Length);
    WholeBlocks(base, top, config);
    limit := Some(built.value.limit);
  }

  /** An allocator of the managed window that has handed out nothing yet. */
  ghost predicate NewAllocator(a: FrameAllocator, reserved: seq<ReservedRange>)
    reads a, a.allocatable, a.used
  {
    && a.Valid() && a.reserved == reserved && Balanced(Ledger(a.Model(), {}))
    && a.Address(0) == MIN_FREE_ADDR && a.Address(a.frames) <= MAX_IDENTITY_BYTES
  }

  /** The window ends at the limit, its bitmaps have room, and one of its frames is usable. */
  ghost predicate FramesFit(limit: nat, regions: seq<Region>, bitmapBytes: nat, reserved: seq<ReservedRange>) {
    var first, end := MIN_FREE_ADDR / PAGE_SIZE, limit / PAGE_SIZE;
    && |reserved| <= MAX_RESERVED_RANGES && first < end && 2 * ((end - first + 7) / 8) <= bitmapBytes
    && exists frame: nat :: first <= frame < end && Usable(regions, |regions|, reserved, frame)
  }

  /**
   Over installed tables, an allocator below their limit. Every frame it may ever hand out is
   mapped to itself, kernel-only and writable, and touches nothing the kernel owns.
   */
  method InitAllocator(limit: nat, regions: seq<Region>, bitmapBytes: nat, reserved: seq<ReservedRange>,
                       ghost entries: seq<Pte>, ghost base: nat, ghost plan: Plan, ghost config: PagingConfig)
    returns (r: Option<FrameAllocator>)
    requires WellFormedMap(regions) && TablesUp(entries, base, plan, regions, config) && limit == plan.limit
    ensures r.Some? ==> fresh(r.value) && fresh(r.value.allocatable) && fresh(r.value.used)
    ensures r.Some? ==> NewAllocator(r.value, reserved) && AllSafe(entries, base, r.value)
    ensures r.Some? <==> FramesFit(Min(limit, MAX_IDENTITY_BYTES), regions, bitmapBytes, reserved)
    ensures r.Some? ==> AllUsable(r.value, regions)
                        && r.value.firstFrame + r.value.frames == Min(limit, MAX_IDENTITY_BYTES) / PAGE_SIZE
  {
    var made := Init(bitmapBytes, regions, reserved, MIN_FREE_ADDR, Min(limit, MAX_IDENTITY_BYTES));
    if made.Err? {
      return None;
    }
    FreshWindow(made.value, regions, reserved, entries, base, plan, config);
    r := Some(made.value);
  }

  lemma FreshWindow(a: FrameAllocator, regions: seq<Region>, reserved: seq<ReservedRange>, entries: seq<Pte>, base: nat,
                    plan: Plan, config: PagingConfig)
    requires TablesUp(entries, base, plan, regions, config)
    requires Initial(a, regions, reserved, MIN_FREE_ADDR / PAGE_SIZE, Min(plan.limit, MAX_IDENTITY_BYTES) / PAGE_SIZE)
    ensures NewAllocator(a, reserved) && AllSafe(entries, base, a) && AllUsable(a, regions)
  {
    AllFramesSafe(entries, plan, regions, config.fineGrainedBytes, a);
  }

  ghost predicate UsableFrom(regions: seq<Region>, reserved: seq<ReservedRange>, s: nat, n: nat) {
    forall frame: nat :: s <= frame < s + n ==> Usable(regions, |regions|, reserved, frame)
  }

  /** Consecutive usable frames of the window. */
  ghost predicate UsableRun(regions: seq<Region>, reserved: seq<ReservedRange>, limit: nat, n: nat) {
    exists s: nat :: && UsableFrom(regions, reserved, s, n)
                     && MIN_FREE_ADDR / PAGE_SIZE <= s && s + n <= limit / PAGE_SIZE
  }

  /** They are free frames of a new allocator. */
  lemma NewRoom(a: FrameAllocator, regions: seq<Region>, reserved: seq<ReservedRange>, limit: nat, n: nat)
    requires NewAllocator(a, reserved) && AllUsable(a, regions) && a.firstFrame + a.frames == limit / PAGE_SIZE
    requires UsableRun(regions, reserved, limit, n)
    ensures HasRoom(a.Model(), n)
  {
    var s: nat :| && UsableFrom(regions, reserved, s, n)
                  && MIN_FREE_ADDR / PAGE_SIZE <= s && s + n <= limit / PAGE_SIZE;
    var i, f := s - a.firstFrame, a.Model();
    forall j | i <= j < i + n ensures IsFree(f, j) {
      assert Usable(regions, |regions|, reserved, a.firstFrame + j);
      assert f.allocatable[j] && !IsIssued(f, j);
    }
    assert FreeRun(f, i, n);
  }

  lemma TablesPlanned(plan: Plan, base: nat, top: nat, config: PagingConfig, len: nat)
    requires plan == PlanFor(base, top, config) && PlanOk(plan) && Fits(base, len, config)
    ensures TablesNeeded(config) == 2 + plan.pd + plan.pt && plan.base == base
  {
  }

  lemma AllFramesSafe(entries: seq<Pte>, plan: Plan, regions: seq<Region>, fine: nat, a: FrameAllocator)
    requires a.Valid() && PlanOk(plan) && Built(entries, plan, regions)
    requires fine == plan.pt * BLOCK_SIZE && plan.fineLimit == Min(fine, plan.limit)
    requires a.firstFrame == MIN_FREE_ADDR / PAGE_SIZE && (a.firstFrame + a.frames) * PAGE_SIZE <= plan.limit
    requires forall i :: 0 <= i < a.frames ==>
                         (a.Model().allocatable[i] <==> Usable(regions, |regions|, a.reserved, a.firstFrame + i))
    ensures AllSafe(entries, plan.base, a)
  {
    forall i | 0 <= i < a.frames && a.Model().allocatable[i] ensures FrameSafe(entries, plan.base, a, i) {
      forall va: nat | a.Address(i) <= va < a.Address(i) + PAGE_SIZE
        ensures Walk(entries, plan.base, plan.base, va) == Mapped(va, true, false)
      {
        InWindow(plan, a.firstFrame + i, va);
        UsableMapped(plan, regions, a.reserved, fine, a.firstFrame + i, va);
        WalkBuilt(entries, plan, regions, va);
      }
    }
  }

  lemma InWindow(plan: Plan, frame: nat, va: nat)
    requires PlanOk(plan) && va < (frame + 1) * PAGE_SIZE && (frame + 1) * PAGE_SIZE <= plan.limit
    ensures va < VA_LIMIT
  {
  }
}

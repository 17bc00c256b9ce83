/** Building the identity-mapping tables in a byte arena. */
module Paging {
  import opened LittleEndian
  import opened MemoryMap
  import opened Mmu
  import opened PageEntries
  import opened PagingModel
  import opened Wrappers

  const MAX_IDENTITY_SUPPORTED: nat := GIB * ENTRIES
  const MAX_FINE_GRAINED_SUPPORTED: nat := BLOCK_SIZE * ENTRIES

  datatype PagingConfig = PagingConfig(maxIdentityBytes: nat, fineGrainedBytes: nat)

  datatype BuildError =
    | ArenaMisaligned(address: nat)
    | ArenaTooSmall(needed: nat, got: nat)
    | NoUsableRam
    | ConfigTooLarge(maxIdentityBytes: nat, supported: nat)
    | FineGrainedTooLarge(fineGrainedBytes: nat, supported: nat)

  datatype PageTables =
    PageTables(pml4Phys: nat, limit: nat, mappedBytes: nat, blocks: nat, pages: nat, tablesUsed: nat)

  function CeilDiv(a: nat, b: nat): nat
    requires 0 < b
  {
    (a + b - 1) / b
  }

  function Min(a: nat, b: nat): nat { if a < b then a else b }

  function TablesNeeded(config: PagingConfig): nat {
    1 + CeilDiv(config.maxIdentityBytes, GIB * ENTRIES) + CeilDiv(config.maxIdentityBytes, GIB)
    + CeilDiv(config.fineGrainedBytes, BLOCK_SIZE)
  }

  function PlanFor(base: nat, top: nat, config: PagingConfig): Plan {
    var limit := Min(top, config.maxIdentityBytes);
    Plan(base, CeilDiv(config.maxIdentityBytes, GIB), CeilDiv(config.fineGrainedBytes, BLOCK_SIZE),
         limit, Min(config.fineGrainedBytes, limit))
  }

  /** What an accepted request looks like. */
  ghost predicate Fits(base: nat, len: nat, config: PagingConfig) {
    && base % PAGE_SIZE == 0
    && config.maxIdentityBytes <= MAX_IDENTITY_SUPPORTED
    && config.fineGrainedBytes <= MAX_FINE_GRAINED_SUPPORTED
    && TablesNeeded(config) * PAGE_SIZE <= len
  }

  lemma PlanFits(base: nat, len: nat, top: nat, config: PagingConfig)
    requires Fits(base, len, config) && base + len <= PHYS_LIMIT && 0 < Min(top, config.maxIdentityBytes)
    ensures PlanOk(PlanFor(base, top, config))
    ensures var plan := PlanFor(base, top, config); TablesNeeded(config) == 2 + plan.pd + plan.pt
  {
  }

  /**
   What the configuration and the memory map ask for: below the identity limit, every 4 KiB page but page 0
   of the fine-grained area, and every 2 MiB block beyond it, that holds RAM.
   */
  ghost predicate ShouldMap(regions: seq<Region>, config: PagingConfig, va: nat) {
    if Block(va) * BLOCK_SIZE < config.fineGrainedBytes
    then && 0 < Page(va) && Page(va) * PAGE_SIZE < Min(config.fineGrainedBytes, config.maxIdentityBytes)
         && RamWithin(regions, Page(va) * PAGE_SIZE, (Page(va) + 1) * PAGE_SIZE)
    else && Block(va) * BLOCK_SIZE < config.maxIdentityBytes
         && RamWithin(regions, Block(va) * BLOCK_SIZE, (Block(va) + 1) * BLOCK_SIZE)
  }

  /** RAM lies below its top, so the limit that the top sets leaves nothing out. */
  lemma BelowTop(regions: seq<Region>, top: nat, start: nat, end: nat)
    requires IsRamTop(regions, top) && RamWithin(regions, start, end)
    ensures start < top
  {
    if x: nat :| start <= x < end && RamByte(regions, x) {
      var i :| 0 <= i < |regions| && regions[i].kind.IsRam() && regions[i].base <= x < regions[i].End();
    }
  }

  lemma FineBlocks(b: nat, fine: nat)
    ensures b < CeilDiv(fine, BLOCK_SIZE) <==> b * BLOCK_SIZE < fine
  {
  }

  lemma PlanMaps(base: nat, top: nat, regions: seq<Region>, config: PagingConfig, va: nat)
    requires IsRamTop(regions, top)
    ensures Policy(PlanFor(base, top, config), regions, va)
            == if ShouldMap(regions, config, va) then Mapped(va, true, false) else Fault
  {
    MappedIff(PlanFor(base, top, config), regions, va);
    FineBlocks(Block(va), config.fineGrainedBytes);
    if RamWithin(regions, Page(va) * PAGE_SIZE, (Page(va) + 1) * PAGE_SIZE) {
      BelowTop(regions, top, Page(va) * PAGE_SIZE, (Page(va) + 1) * PAGE_SIZE);
    }
    if RamWithin(regions, Block(va) * BLOCK_SIZE, (Block(va) + 1) * BLOCK_SIZE) {
      BelowTop(regions, top, Block(va) * BLOCK_SIZE, (Block(va) + 1) * BLOCK_SIZE);
    }
  }

  /** Every address translates to itself for the kernel, or faults, as asked for. */
  ghost predicate Translates(entries: seq<Pte>, base: nat, regions: seq<Region>, config: PagingConfig) {
    forall va: nat :: va < VA_LIMIT ==>
                      Walk(entries, base, base, va)
                      == if ShouldMap(regions, config, va) then Mapped(va, true, false) else Fault
  }

  lemma BuiltTranslates(entries: seq<Pte>, base: nat, top: nat, regions: seq<Region>, config: PagingConfig)
    requires IsRamTop(regions, top) && PlanOk(PlanFor(base, top, config))
    requires Built(entries, PlanFor(base, top, config), regions)
    ensures Translates(entries, base, regions, config)
  {
    forall va: nat | va < VA_LIMIT
      ensures Walk(entries, base, base, va)
              == if ShouldMap(regions, config, va) then Mapped(va, true, false) else Fault
    {
      WalkBuilt(entries, PlanFor(base, top, config), regions, va);
      PlanMaps(base, top, regions, config, va);
    }
  }

  /** The top two levels over cleared tables. */
  method LinkTables(arena: array<byte>, plan: Plan)
    requires PlanOk(plan) && (2 + plan.pd) * ENTRIES <= arena.Length / 8
    requires forall k :: 0 <= k < 2 * ENTRIES ==> Entries(arena[..])[k] == Empty
    modifies arena
    ensures |Entries(arena[..])| == old(|Entries(arena[..])|)
    ensures Entries(arena[..])[0] == Table(PageAt(plan, 1))
    ensures forall k :: 1 <= k < ENTRIES ==> Entries(arena[..])[k] == Empty
    ensures forall k :: ENTRIES <= k < 2 * ENTRIES ==> Entries(arena[..])[k] == PdptEntry(plan, k - ENTRIES)
    ensures forall k :: 2 * ENTRIES <= k < arena.Length / 8 ==>
                        Entries(arena[..])[k] == old(Entries(arena[..]))[k]
  {
    ghost var before := Entries(arena[..]);
    WriteEntry(arena, 0, Table(PageAt(plan, 1)));
    for g := 0 to plan.pd
      invariant |Entries(arena[..])| == |before|
      invariant Entries(arena[..])[0] == Table(PageAt(plan, 1))
      invariant forall k :: 1 <= k < ENTRIES ==> Entries(arena[..])[k] == Empty
      invariant forall k :: ENTRIES <= k < 2 * ENTRIES ==>
                            Entries(arena[..])[k] == if k < ENTRIES + g then PdptEntry(plan, k - ENTRIES) else Empty
      invariant forall k :: 2 * ENTRIES <= k < |before| ==> Entries(arena[..])[k] == before[k]
    {
      WriteEntry(arena, ENTRIES + g, Table(PageAt(plan, 2 + g)));
    }
  }

  /** The directory entry of one block, if it needs one. */
  method FillBlock(arena: array<byte>, plan: Plan, regions: seq<Region>, b: nat) returns (mapped: bool)
    requires PlanOk(plan) && b < plan.pd * ENTRIES
    requires PdIndex(b) < arena.Length / 8 && Entries(arena[..])[PdIndex(b)] == Empty
    modifies arena
    ensures Entries(arena[..]) == old(Entries(arena[..]))[PdIndex(b) := PdEntry(plan, regions, b)]
    ensures mapped <==> plan.pt <= b && MapsBlock(plan, regions, b)
  {
    mapped := false;
    if b < plan.pt {
      WriteEntry(arena, PdIndex(b), Table(PageAt(plan, 2 + plan.pd + b)));
    } else if b * BLOCK_SIZE < plan.limit && OverlapsRam(regions, b * BLOCK_SIZE, b * BLOCK_SIZE + BLOCK_SIZE) {
      WriteEntry(arena, PdIndex(b), Pte(true, true, false, true, b * BLOCK_SIZE));
      mapped := true;
    }
  }

  /** One page directory: 512 blocks from `first` on. */
  method FillDirectory(arena: array<byte>, plan: Plan, regions: seq<Region>, first: nat, mapped: nat)
    returns (blocks: nat, mapped': nat)
    requires PlanOk(plan) && first + ENTRIES <= plan.pd * ENTRIES && (2 + plan.pd) * ENTRIES <= arena.Length / 8
    requires forall k :: PdIndex(first) <= k < PdIndex(first + ENTRIES) ==> Entries(arena[..])[k] == Empty
    modifies arena
    ensures Filled(old(Entries(arena[..])), Entries(arena[..]), plan, regions, first, first + ENTRIES)
    ensures BlockCount(plan, regions, first + ENTRIES) == BlockCount(plan, regions, first) + blocks
    ensures mapped' == mapped + BLOCK_SIZE * blocks
  {
    ghost var before := Entries(arena[..]);
    blocks, mapped' := 0, mapped;
    for s := 0 to ENTRIES
      invariant Filled(before, Entries(arena[..]), plan, regions, first, first + s)
      invariant BlockCount(plan, regions, first + s) == BlockCount(plan, regions, first) + blocks
      invariant mapped' == mapped + BLOCK_SIZE * blocks
    {
      ghost var was := Entries(arena[..]);
      assert was[PdIndex(first + s)] == before[PdIndex(first + s)];
      var more := FillBlock(arena, plan, regions, first + s);
      FilledNext(before, was, plan, regions, first, first + s);
      if more {
        blocks := blocks + 1;
        mapped' := mapped' + BLOCK_SIZE;
      }
    }
  }

  /** The directory entries of the blocks from `lo` to `hi` are in place, and nothing else has changed. */
  ghost predicate Filled(before: seq<Pte>, now: seq<Pte>, plan: Plan, regions: seq<Region>, lo: nat, hi: nat) {
    && |now| == |before|
    && forall k :: 0 <= k < |before| ==>
                   now[k]
                   == if PdIndex(lo) <= k < PdIndex(hi) then PdEntry(plan, regions, k - PdIndex(0)) else before[k]
  }

  lemma FilledNext(before: seq<Pte>, was: seq<Pte>, plan: Plan, regions: seq<Region>, lo: nat, hi: nat)
    requires Filled(before, was, plan, regions, lo, hi) && lo <= hi && PdIndex(hi) < |before|
    ensures Filled(before, was[PdIndex(hi) := PdEntry(plan, regions, hi)], plan, regions, lo, hi + 1)
  {
  }

  method FillDirectories(arena: array<byte>, plan: Plan, regions: seq<Region>) returns (blocks: nat, mapped: nat)
    requires PlanOk(plan) && (2 + plan.pd) * ENTRIES <= arena.Length / 8
    requires forall k :: PdIndex(0) <= k < PdIndex(plan.pd * ENTRIES) ==> Entries(arena[..])[k] == Empty
    modifies arena
    ensures Filled(old(Entries(arena[..])), Entries(arena[..]), plan, regions, 0, plan.pd * ENTRIES)
    ensures blocks == BlockCount(plan, regions, plan.pd * ENTRIES) && mapped == BLOCK_SIZE * blocks
  {
    ghost var before := Entries(arena[..]);
    blocks, mapped := 0, 0;
    for g := 0 to plan.pd
      invariant Filled(before, Entries(arena[..]), plan, regions, 0, g * ENTRIES)
      invariant blocks == BlockCount(plan, regions, g * ENTRIES) && mapped == BLOCK_SIZE * blocks
    {
      var more, mapped' := FillDirectory(arena, plan, regions, g * ENTRIES, mapped);
      blocks, mapped := blocks + more, mapped';
    }
  }

  /** The entry of one fine-grained page, if it is mapped. */
  method FillPage(arena: array<byte>, plan: Plan, regions: seq<Region>, q: nat) returns (mapped: bool)
    requires PlanOk(plan) && PtIndex(plan, q) < arena.Length / 8 && Entries(arena[..])[PtIndex(plan, q)] == Empty
    modifies arena
    ensures Entries(arena[..]) == old(Entries(arena[..]))[PtIndex(plan, q) := PtEntry(plan, regions, q)]
    ensures mapped <==> MapsPage(plan, regions, q)
  {
    mapped := false;
    if q != 0 && q * PAGE_SIZE < plan.fineLimit {
      if OverlapsRam(regions, q * PAGE_SIZE, q * PAGE_SIZE + PAGE_SIZE) {
        WriteEntry(arena, PtIndex(plan, q), Table(q * PAGE_SIZE));
        mapped := true;
      }
    }
  }

  /** The fine-grained entries of the pages from `lo` to `hi` are in place, and nothing else has changed. */
  ghost predicate FilledPages(before: seq<Pte>, now: seq<Pte>, plan: Plan, regions: seq<Region>, lo: nat, hi: nat) {
    && |now| == |before|
    && forall k :: 0 <= k < |before| ==>
                   now[k] == if PtIndex(plan, lo) <= k < PtIndex(plan, hi)
                             then PtEntry(plan, regions, k - PtIndex(plan, 0)) else before[k]
  }

  lemma FilledPagesNext(before: seq<Pte>, was: seq<Pte>, plan: Plan, regions: seq<Region>, lo: nat, hi: nat)
    requires FilledPages(before, was, plan, regions, lo, hi) && lo <= hi && PtIndex(plan, hi) < |before|
    ensures FilledPages(before, was[PtIndex(plan, hi) := PtEntry(plan, regions, hi)], plan, regions, lo, hi + 1)
  {
  }

  /** One fine-grained table: 512 pages from `first` on. */
  method FillTable(arena: array<byte>, plan: Plan, regions: seq<Region>, first: nat, mapped: nat)
    returns (pages: nat, mapped': nat)
    requires PlanOk(plan) && PtIndex(plan, first + ENTRIES) <= arena.Length / 8
    requires forall k :: PtIndex(plan, first) <= k < PtIndex(plan, first + ENTRIES) ==> Entries(arena[..])[k] == Empty
    modifies arena
    ensures FilledPages(old(Entries(arena[..])), Entries(arena[..]), plan, regions, first, first + ENTRIES)
    ensures PageCount(plan, regions, first + ENTRIES) == PageCount(plan, regions, first) + pages
    ensures mapped' == mapped + PAGE_SIZE * pages
  {
    ghost var before := Entries(arena[..]);
    pages, mapped' := 0, mapped;
    for s := 0 to ENTRIES
      invariant FilledPages(before, Entries(arena[..]), plan, regions, first, first + s)
      invariant PageCount(plan, regions, first + s) == PageCount(plan, regions, first) + pages
      invariant mapped' == mapped + PAGE_SIZE * pages
    {
      ghost var was := Entries(arena[..]);
      assert was[PtIndex(plan, first + s)] == before[PtIndex(plan, first + s)];
      var more := FillPage(arena, plan, regions, first + s);
      FilledPagesNext(before, was, plan, regions, first, first + s);
      if more {
        pages := pages + 1;
        mapped' := mapped' + PAGE_SIZE;
      }
    }
  }

  method FillTables(arena: array<byte>, plan: Plan, regions: seq<Region>, mapped: nat)
    returns (pages: nat, mapped': nat)
    requires PlanOk(plan) && (2 + plan.pd + plan.pt) * ENTRIES <= arena.Length / 8
    requires forall k :: PtIndex(plan, 0) <= k < PtIndex(plan, plan.pt * ENTRIES) ==> Entries(arena[..])[k] == Empty
    modifies arena
    ensures FilledPages(old(Entries(arena[..])), Entries(arena[..]), plan, regions, 0, plan.pt * ENTRIES)
    ensures pages == PageCount(plan, regions, plan.pt * ENTRIES) && mapped' == mapped + PAGE_SIZE * pages
  {
    ghost var before := Entries(arena[..]);
    pages, mapped' := 0, mapped;
    for t := 0 to plan.pt
      invariant FilledPages(before, Entries(arena[..]), plan, regions, 0, t * ENTRIES)
      invariant pages == PageCount(plan, regions, t * ENTRIES) && mapped' == mapped + PAGE_SIZE * pages
    {
      var more, m := FillTable(arena, plan, regions, t * ENTRIES, mapped');
      pages, mapped' := pages + more, m;
    }
  }

  /** All tables, in the order the code fills them; nothing past the tables is touched. */
  method FillArena(arena: array<byte>, plan: Plan, regions: seq<Region>)
    returns (blocks: nat, pages: nat, mapped: nat)
    requires PlanOk(plan) && (2 + plan.pd + plan.pt) * ENTRIES <= arena.Length / 8
    modifies arena
    ensures |Entries(arena[..])| == old(|Entries(arena[..])|)
    ensures Built(Entries(arena[..]), plan, regions)
    ensures forall k :: (2 + plan.pd + plan.pt) * ENTRIES <= k < arena.Length / 8 ==>
                        Entries(arena[..])[k] == old(Entries(arena[..]))[k]
    ensures blocks == BlockCount(plan, regions, plan.pd * ENTRIES)
    ensures pages == PageCount(plan, regions, plan.pt * ENTRIES)
    ensures mapped == BLOCK_SIZE * blocks + PAGE_SIZE * pages
  {
    ClearEntries(arena, 0, (2 + plan.pd + plan.pt) * ENTRIES);
    LinkTables(arena, plan);
    blocks, mapped := FillDirectories(arena, plan, regions);
    pages, mapped := FillTables(arena, plan, regions, mapped);
  }

  /**
   Errors are reported in this order and leave the arena alone; otherwise the tables are built
   and `mappedBytes` is the size of exactly the pages that translate.
   */
  method Build(arena: array<byte>, base: nat, regions: seq<Region>, config: PagingConfig)
    returns (r: Result<PageTables, BuildError>)
    requires base + arena.Length <= PHYS_LIMIT
    modifies arena
    ensures base % PAGE_SIZE != 0 ==> r == Err(ArenaMisaligned(base))
    ensures base % PAGE_SIZE == 0 && config.maxIdentityBytes > MAX_IDENTITY_SUPPORTED ==>
              r == Err(ConfigTooLarge(config.maxIdentityBytes, MAX_IDENTITY_SUPPORTED))
    ensures base % PAGE_SIZE == 0 && config.maxIdentityBytes <= MAX_IDENTITY_SUPPORTED
            && config.fineGrainedBytes > MAX_FINE_GRAINED_SUPPORTED ==>
              r == Err(FineGrainedTooLarge(config.fineGrainedBytes, MAX_FINE_GRAINED_SUPPORTED))
    ensures base % PAGE_SIZE == 0 && config.maxIdentityBytes <= MAX_IDENTITY_SUPPORTED
            && config.fineGrainedBytes <= MAX_FINE_GRAINED_SUPPORTED
            && arena.Length < TablesNeeded(config) * PAGE_SIZE ==>
              r == Err(ArenaTooSmall(TablesNeeded(config) * PAGE_SIZE, arena.Length))
    ensures Fits(base, arena.Length, config) ==>
              if exists top :: IsRamTop(regions, top) && 0 < Min(top, config.maxIdentityBytes)
              then r.Ok? else r == Err(NoUsableRam)
    ensures r.Err? ==> arena[..] == old(arena[..])
    ensures r.Ok? ==> Fits(base, arena.Length, config) && Reported(Entries(arena[..]), base, regions, config, r.value)
    ensures r.Ok? ==> Translates(Entries(arena[..]), base, regions, config)
  {
    if base % PAGE_SIZE != 0 {
      return Err(ArenaMisaligned(base));
    }
    if config.maxIdentityBytes > MAX_IDENTITY_SUPPORTED {
      return Err(ConfigTooLarge(config.maxIdentityBytes, MAX_IDENTITY_SUPPORTED));
    }
    if config.fineGrainedBytes > MAX_FINE_GRAINED_SUPPORTED {
      return Err(FineGrainedTooLarge(config.fineGrainedBytes, MAX_FINE_GRAINED_SUPPORTED));
    }
    var tables := TablesNeeded(config);
    if arena.Length < tables * PAGE_SIZE {
      return Err(ArenaTooSmall(tables * PAGE_SIZE, arena.Length));
    }
    var top := RamTop(regions);
    if top.None? || Min(top.value, config.maxIdentityBytes) == 0 {
      return Err(NoUsableRam);
    }
    var plan := PlanFor(base, top.value, config);
    PlanFits(base, arena.Length, top.value, config);
    var blocks, pages, mapped := FillArena(arena, plan, regions);
    CoarsePages(plan, regions, plan.pd * ENTRIES);
    BuiltTranslates(Entries(arena[..]), base, top.value, regions, config);
    r := Ok(PageTables(base, plan.limit, mapped, blocks, pages, tables));
  }

  /** The tables are those of the plan for the top of RAM, and the report says what they map. */
  ghost predicate Reported(entries: seq<Pte>, base: nat, regions: seq<Region>, config: PagingConfig, t: PageTables) {
    exists top ::
      && IsRamTop(regions, top)
      && ReportedFor(entries, PlanFor(base, top, config), regions, t)
      && t.tablesUsed == TablesNeeded(config)
  }

  ghost predicate ReportedFor(entries: seq<Pte>, plan: Plan, regions: seq<Region>, t: PageTables) {
    && PlanOk(plan) && Built(entries, plan, regions)
    && t.pml4Phys == plan.base && t.limit == plan.limit
    && t.blocks == BlockCount(plan, regions, plan.pd * ENTRIES)
    && t.pages == PageCount(plan, regions, plan.pt * ENTRIES)
    && t.mappedBytes == PAGE_SIZE * MappedPages(plan, regions, plan.pd * ENTRIES * ENTRIES)
  }

  // ----- two configurations outside the documented ones -----

  /** Two MiB of conventional memory from address 0. */
  function LowRam(): seq<Region> { [Region(Conventional, 0, ENTRIES)] }

  /** Without fine-grained tables page 0 is mapped with its block. */
  lemma PageZeroMapped(base: nat)
    ensures IsRamTop(LowRam(), BLOCK_SIZE)
    ensures Policy(PlanFor(base, BLOCK_SIZE, PagingConfig(4 * GIB, 0)), LowRam(), 0) == Mapped(0, true, false)
  {
    var region := LowRam()[0];
    assert region.End() == BLOCK_SIZE && region.kind.IsRam() && region.Overlaps(0, BLOCK_SIZE);
  }

  /** With one fine-grained page the rest of its block is dropped although it is RAM below the limit. */
  lemma PartialBlockDrops(base: nat)
    ensures var plan := PlanFor(base, BLOCK_SIZE, PagingConfig(4 * GIB, PAGE_SIZE));
            && RamByte(LowRam(), PAGE_SIZE) && PAGE_SIZE < plan.limit
            && Policy(plan, LowRam(), PAGE_SIZE) == Fault
  {
    var region := LowRam()[0];
    assert region.End() == BLOCK_SIZE && region.kind.IsRam();
  }
}

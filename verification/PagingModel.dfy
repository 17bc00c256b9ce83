/** What the identity-mapping tables must contain, and how the processor then translates. */
module PagingModel {
  import opened MemoryMap
  import opened Mmu
  import opened PageEntries
  import opened Wrappers

  /** Where the tables lie and what the policy allows: `pd` directories, `pt` fine-grained tables. */
  datatype Plan = Plan(base: nat, pd: nat, pt: nat, limit: nat, fineLimit: nat)

  ghost predicate PlanOk(plan: Plan) {
    && 0 < plan.pd <= ENTRIES && plan.pt <= ENTRIES
    && plan.base % PAGE_SIZE == 0
    && plan.base + (2 + plan.pd + plan.pt) * PAGE_SIZE <= PHYS_LIMIT
    && plan.limit <= plan.pd * GIB
    && plan.fineLimit <= plan.limit
  }

  predicate OverlapsRam(regions: seq<Region>, start: nat, end: nat) {
    exists i :: 0 <= i < |regions| && regions[i].kind.IsRam() && regions[i].Overlaps(start, end)
  }

  /** A 4 KiB page of the fine-grained area: never page 0, below the limit, touching RAM. */
  predicate MapsPage(plan: Plan, regions: seq<Region>, q: nat) {
    && q != 0 && q * PAGE_SIZE < plan.fineLimit
    && OverlapsRam(regions, q * PAGE_SIZE, q * PAGE_SIZE + PAGE_SIZE)
  }

  predicate MapsBlock(plan: Plan, regions: seq<Region>, b: nat) {
    b * BLOCK_SIZE < plan.limit && OverlapsRam(regions, b * BLOCK_SIZE, b * BLOCK_SIZE + BLOCK_SIZE)
  }

  /** The policy for page `q`: its own rule in the fine-grained area, its block's elsewhere. */
  predicate MapsAt(plan: Plan, regions: seq<Region>, q: nat) {
    if q / ENTRIES < plan.pt then MapsPage(plan, regions, q) else MapsBlock(plan, regions, q / ENTRIES)
  }

  function Table(addr: nat): Pte { Pte(true, true, false, false, addr) }

  function PageAt(plan: Plan, p: nat): nat { plan.base + PAGE_SIZE * p }

  function PdptEntry(plan: Plan, g: nat): Pte {
    if g < plan.pd then Table(PageAt(plan, 2 + g)) else Empty
  }

  function PdEntry(plan: Plan, regions: seq<Region>, b: nat): Pte {
    if b < plan.pt then Table(PageAt(plan, 2 + plan.pd + b))
    else if MapsBlock(plan, regions, b) then Pte(true, true, false, true, b * BLOCK_SIZE)
    else Empty
  }

  function PtEntry(plan: Plan, regions: seq<Region>, q: nat): Pte {
    if MapsPage(plan, regions, q) then Table(q * PAGE_SIZE) else Empty
  }

  /** Index of block `b` among the directories, and of page `q` among the fine-grained tables. */
  function PdIndex(b: nat): nat { 2 * ENTRIES + b }

  function PtIndex(plan: Plan, q: nat): nat { (2 + plan.pd) * ENTRIES + q }

  /** The directories and the fine-grained tables. */
  ghost predicate LowerTables(entries: seq<Pte>, plan: Plan, regions: seq<Region>) {
    && (2 + plan.pd + plan.pt) * ENTRIES <= |entries|
    && (forall k :: PdIndex(0) <= k < PdIndex(plan.pd * ENTRIES) ==>
                    entries[k] == PdEntry(plan, regions, k - PdIndex(0)))
    && (forall k :: PtIndex(plan, 0) <= k < PtIndex(plan, plan.pt * ENTRIES) ==>
                    entries[k] == PtEntry(plan, regions, k - PtIndex(plan, 0)))
  }

  /** The arena holds, in order: the PML4, the PDPT, the directories, the fine-grained tables. */
  ghost predicate Built(entries: seq<Pte>, plan: Plan, regions: seq<Region>) {
    && LowerTables(entries, plan, regions)
    && entries[0] == Table(PageAt(plan, 1))
    && (forall i :: 1 <= i < ENTRIES ==> entries[i] == Empty)
    && (forall k :: ENTRIES <= k < 2 * ENTRIES ==> entries[k] == PdptEntry(plan, k - ENTRIES))
  }

  function Policy(plan: Plan, regions: seq<Region>, va: nat): Translation {
    if MapsAt(plan, regions, Page(va)) then Mapped(va, true, false) else Fault
  }

  /** The walk of every address is the identity, supervisor and writable, exactly where the policy says so. */
  lemma WalkBuilt(entries: seq<Pte>, plan: Plan, regions: seq<Region>, va: nat)
    requires Built(entries, plan, regions) && PlanOk(plan) && va < VA_LIMIT
    ensures Walk(entries, plan.base, plan.base, va) == Policy(plan, regions, va)
  {
    Digits(va);
    SlotAt(entries, plan.base, 0, Gib(va) / ENTRIES);
    if Gib(va) >= ENTRIES {
      assert entries[Gib(va) / ENTRIES] == Empty;
      AboveLimit(plan, regions, va);
    } else {
      assert entries[ENTRIES + Gib(va)] == PdptEntry(plan, Gib(va));
      WalkIdentity(entries, plan, regions, va);
    }
  }

  lemma AboveLimit(plan: Plan, regions: seq<Region>, va: nat)
    requires PlanOk(plan) && plan.pd <= Gib(va)
    ensures Policy(plan, regions, va) == Fault
  {
    Digits(va);
    assert plan.limit <= plan.pd * GIB <= Block(va) * BLOCK_SIZE;
  }

  /** Below 512 GiB the walk needs only one PDPT entry, and the top-level user bit does not matter. */
  lemma WalkIdentity(entries: seq<Pte>, plan: Plan, regions: seq<Region>, va: nat)
    requires LowerTables(entries, plan, regions) && PlanOk(plan) && Gib(va) < ENTRIES
    requires entries[0].(user := false) == Table(PageAt(plan, 1))
    requires entries[ENTRIES + Gib(va)] == PdptEntry(plan, Gib(va))
    ensures Walk(entries, plan.base, plan.base, va) == Policy(plan, regions, va)
  {
    SlotAt(entries, plan.base, 0, 0);
    SlotAt(entries, plan.base, 1, Gib(va));
    if plan.pd <= Gib(va) {
      AboveLimit(plan, regions, va);
      WalkStops(entries, plan, va);
    } else {
      PdSlot(entries, plan, regions, Block(va));
      if Block(va) < plan.pt {
        PtSlot(entries, plan, regions, Page(va));
      }
      WalkSlots(entries, plan, regions, va);
    }
  }

  /** Without a directory the walk ends. */
  lemma WalkStops(entries: seq<Pte>, plan: Plan, va: nat)
    requires 0 < |entries| && entries[0].(user := false) == Table(PageAt(plan, 1))
    requires Slot(entries, plan.base, plan.base, 0) == Some(entries[0])
    requires Gib(va) < ENTRIES && Slot(entries, plan.base, PageAt(plan, 1), Gib(va)) == Some(Empty)
    ensures Walk(entries, plan.base, plan.base, va) == Fault
  {
  }

  /** The directory entry of a block, and the fine-grained entry of a page. */
  lemma PdSlot(entries: seq<Pte>, plan: Plan, regions: seq<Region>, b: nat)
    requires LowerTables(entries, plan, regions) && b < plan.pd * ENTRIES
    ensures Slot(entries, plan.base, PageAt(plan, 2 + b / ENTRIES), b % ENTRIES) == Some(PdEntry(plan, regions, b))
  {
    assert entries[PdIndex(b)] == PdEntry(plan, regions, b);
    SlotInRun(entries, plan.base, 2, b);
  }

  lemma PtSlot(entries: seq<Pte>, plan: Plan, regions: seq<Region>, q: nat)
    requires LowerTables(entries, plan, regions) && q < plan.pt * ENTRIES
    ensures Slot(entries, plan.base, PageAt(plan, 2 + plan.pd + q / ENTRIES), q % ENTRIES)
            == Some(PtEntry(plan, regions, q))
  {
    assert entries[PtIndex(plan, q)] == PtEntry(plan, regions, q);
    SlotInRun(entries, plan.base, 2 + plan.pd, q);
  }

  /** The walk, given the entries it meets. */
  lemma WalkSlots(entries: seq<Pte>, plan: Plan, regions: seq<Region>, va: nat)
    requires 0 < |entries| && entries[0].(user := false) == Table(PageAt(plan, 1))
    requires Slot(entries, plan.base, plan.base, 0) == Some(entries[0])
    requires Gib(va) < ENTRIES
    requires Slot(entries, plan.base, PageAt(plan, 1), Gib(va)) == Some(Table(PageAt(plan, 2 + Gib(va))))
    requires Slot(entries, plan.base, PageAt(plan, 2 + Gib(va)), Block(va) % ENTRIES)
             == Some(PdEntry(plan, regions, Block(va)))
    requires Block(va) < plan.pt ==>
               Slot(entries, plan.base, PageAt(plan, 2 + plan.pd + Block(va)), Page(va) % ENTRIES)
               == Some(PtEntry(plan, regions, Page(va)))
    ensures Walk(entries, plan.base, plan.base, va) == Policy(plan, regions, va)
  {
    Digits(va);
  }

  // ----- consequences -----

  /** Every RAM byte from page 1 up to the limit is mapped, unless a partial fine-grained block drops it. */
  lemma RamCovered(plan: Plan, regions: seq<Region>, x: nat)
    requires PlanOk(plan) && RamByte(regions, x) && PAGE_SIZE <= x < plan.limit
    ensures Policy(plan, regions, x).Mapped? <==>
            plan.pt <= Block(x) || Page(x) * PAGE_SIZE < plan.fineLimit
  {
    Digits(x);
    var i :| 0 <= i < |regions| && regions[i].kind.IsRam() && regions[i].base <= x < regions[i].End();
    assert regions[i].Overlaps(Page(x) * PAGE_SIZE, Page(x) * PAGE_SIZE + PAGE_SIZE);
    assert regions[i].Overlaps(Block(x) * BLOCK_SIZE, Block(x) * BLOCK_SIZE + BLOCK_SIZE);
  }

  /** With whole fine-grained blocks, as the configuration demands, nothing is dropped. */
  lemma WholeBlocksCoverRam(plan: Plan, regions: seq<Region>, x: nat, fine: nat)
    requires PlanOk(plan) && RamByte(regions, x) && PAGE_SIZE <= x < plan.limit
    requires fine == plan.pt * BLOCK_SIZE && plan.fineLimit == if fine < plan.limit then fine else plan.limit
    ensures Policy(plan, regions, x).Mapped?
  {
    Digits(x);
    RamCovered(plan, regions, x);
  }

  /** Some RAM byte lies in the range, or a RAM region without bytes stands strictly inside it. */
  ghost predicate RamWithin(regions: seq<Region>, start: nat, end: nat) {
    || (exists x: nat :: start <= x < end && RamByte(regions, x))
    || (exists i :: 0 <= i < |regions| && regions[i].kind.IsRam() && regions[i].pages == 0
                    && start < regions[i].base < end)
  }

  lemma OverlapsIff(regions: seq<Region>, start: nat, end: nat)
    requires start < end
    ensures OverlapsRam(regions, start, end) <==> RamWithin(regions, start, end)
  {
    if OverlapsRam(regions, start, end) {
      var i :| 0 <= i < |regions| && regions[i].kind.IsRam() && regions[i].Overlaps(start, end);
      if regions[i].pages > 0 {
        var x := if regions[i].base < start then start else regions[i].base;
        assert regions[i].base <= x < regions[i].End();
        assert RamByte(regions, x);
      }
    }
    if x: nat :| start <= x < end && RamByte(regions, x) {
      var i :| 0 <= i < |regions| && regions[i].kind.IsRam() && regions[i].base <= x < regions[i].End();
      assert regions[i].Overlaps(start, end);
    }
  }

  /** What is mapped, by bytes: pages, or elsewhere whole blocks, below their limit that hold RAM, and no others. */
  lemma MappedIff(plan: Plan, regions: seq<Region>, va: nat)
    ensures Policy(plan, regions, va).Mapped? <==>
            if Block(va) < plan.pt
            then && 0 < Page(va) && Page(va) * PAGE_SIZE < plan.fineLimit
                 && RamWithin(regions, Page(va) * PAGE_SIZE, (Page(va) + 1) * PAGE_SIZE)
            else && Block(va) * BLOCK_SIZE < plan.limit
                 && RamWithin(regions, Block(va) * BLOCK_SIZE, (Block(va) + 1) * BLOCK_SIZE)
  {
    OverlapsIff(regions, Page(va) * PAGE_SIZE, (Page(va) + 1) * PAGE_SIZE);
    OverlapsIff(regions, Block(va) * BLOCK_SIZE, (Block(va) + 1) * BLOCK_SIZE);
  }

  /** Page 0 stays unmapped exactly when it is fine-grained or its whole block is left out. */
  lemma PageZero(plan: Plan, regions: seq<Region>, va: nat)
    requires va < PAGE_SIZE
    ensures Policy(plan, regions, va) == Fault <==> 0 < plan.pt || !MapsBlock(plan, regions, 0)
  {
  }

  // ----- counting what is mapped -----

  /** Mapped 4 KiB pages among the first `n`. */
  function MappedPages(plan: Plan, regions: seq<Region>, n: nat): nat {
    if n == 0 then 0 else MappedPages(plan, regions, n - 1) + (if MapsAt(plan, regions, n - 1) then 1 else 0)
  }

  /** Mapped blocks among those numbered from `pt` up to `n`. */
  function BlockCount(plan: Plan, regions: seq<Region>, n: nat): nat {
    if n <= plan.pt then 0
    else BlockCount(plan, regions, n - 1) + (if MapsBlock(plan, regions, n - 1) then 1 else 0)
  }

  function PageCount(plan: Plan, regions: seq<Region>, n: nat): nat {
    if n == 0 then 0 else PageCount(plan, regions, n - 1) + (if MapsPage(plan, regions, n - 1) then 1 else 0)
  }

  lemma {:induction false} FinePages(plan: Plan, regions: seq<Region>, n: nat)
    requires n <= plan.pt * ENTRIES
    ensures MappedPages(plan, regions, n) == PageCount(plan, regions, n)
  {
    if n == 0 {
    } else {
      FinePages(plan, regions, n - 1);
    }
  }

  /** The first `k` pages of a coarse block share its fate. */
  lemma {:induction false} InsideBlock(plan: Plan, regions: seq<Region>, b: nat, k: nat)
    requires plan.pt <= b && k <= ENTRIES
    ensures MappedPages(plan, regions, b * ENTRIES + k)
            == MappedPages(plan, regions, b * ENTRIES) + (if MapsBlock(plan, regions, b) then k else 0)
  {
    if k == 0 {
    } else {
      InsideBlock(plan, regions, b, k - 1);
      assert (b * ENTRIES + (k - 1)) / ENTRIES == b;
    }
  }

  lemma {:induction false} CoarsePages(plan: Plan, regions: seq<Region>, b: nat)
    requires plan.pt <= b
    ensures MappedPages(plan, regions, b * ENTRIES)
            == PageCount(plan, regions, plan.pt * ENTRIES) + ENTRIES * BlockCount(plan, regions, b)
  {
    if b == plan.pt {
      FinePages(plan, regions, b * ENTRIES);
    } else {
      CoarsePages(plan, regions, b - 1);
      InsideBlock(plan, regions, b - 1, ENTRIES);
    }
  }
}

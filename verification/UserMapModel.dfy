/** The user region: what its tables hold, and how user and kernel addresses then translate. */
module UserMapModel {
  import opened MemoryMap
  import opened Mmu
  import opened PageEntries
  import opened PagingModel
  import opened Wrappers

  /** The user region is the fifth GiB, just past the identity mapping. */
  const USER_GIB: nat := 4
  const USER_BASE: nat := 0x1_0000_0000
  const USER_MAX_BYTES: nat := ENTRIES * BLOCK_SIZE
  const USER_PAGE: nat := USER_BASE / PAGE_SIZE

  datatype Mapping = Mapping(vaddr: nat, paddr: nat, size: nat, writable: bool) {
    function End(): nat { vaddr + size }

    /** Page `q` of the user region lies in this mapping. */
    predicate Covers(q: nat) { vaddr <= USER_BASE + q * PAGE_SIZE < End() }

    function LeafAt(q: nat): Pte
      requires vaddr <= USER_BASE + q * PAGE_SIZE
    {
      Pte(true, writable, true, false, paddr + (USER_BASE + q * PAGE_SIZE - vaddr))
    }

    predicate WellFormed() {
      && USER_BASE <= vaddr && End() <= USER_BASE + USER_MAX_BYTES && 0 < size
      && vaddr % PAGE_SIZE == 0 && paddr % PAGE_SIZE == 0 && size % PAGE_SIZE == 0
    }
  }

  /** The last mapping that covers page `q` decides. */
  function Leaf(mappings: seq<Mapping>, n: nat, q: nat): (leaf: Pte)
    requires n <= |mappings|
    ensures leaf.present ==> leaf.user
  {
    if n == 0 then Empty
    else if mappings[n - 1].Covers(q) then mappings[n - 1].LeafAt(q)
    else Leaf(mappings, n - 1, q)
  }

  function UserTable(addr: nat): Pte { Pte(true, true, true, false, addr) }

  /** Entries as the processor reads them: bit 0 present, bit 1 writable, bit 2 user, bit 7 large. */
  lemma EntryWords(addr: nat)
    requires addr % PAGE_SIZE == 0 && addr < PHYS_LIMIT
    ensures EncodePte(Table(addr)) == addr + 0x3 && EncodePte(Pte(true, true, false, true, addr)) == addr + 0x83
    ensures EncodePte(UserTable(addr)) == addr + 0x7 && EncodePte(Pte(true, false, true, false, addr)) == addr + 0x5
    ensures DecodePte(addr + 0x3) == Table(addr) && DecodePte(addr + 0x7) == UserTable(addr)
    ensures DecodePte(addr + 0x83) == Pte(true, true, false, true, addr)
  {
    DecodeEncodePte(Table(addr));
    DecodeEncodePte(UserTable(addr));
    DecodeEncodePte(Pte(true, true, false, true, addr));
  }

  /** The user directory at `dir` and its `pts` tables, which follow it. */
  function UserPdEntry(dir: nat, pts: nat, i: nat): Pte {
    if i < pts then UserTable(dir + PAGE_SIZE * (1 + i)) else Empty
  }

  /** No mapping reaches past the tables. */
  ghost predicate Reaches(mappings: seq<Mapping>, pts: nat) {
    forall i :: 0 <= i < |mappings| ==> mappings[i].End() <= USER_BASE + pts * BLOCK_SIZE
  }

  /**
   `after` is `before` with the user region attached: the top-level entry `top` opened to user
   accesses, PDPT entry `hook` pointing at the directory, and the new tables from page `first` on.
   */
  ghost predicate Attached(before: seq<Pte>, after: seq<Pte>, base: nat, top: nat, hook: nat, first: nat, pts: nat,
                           mappings: seq<Mapping>)
  {
    Reaches(mappings, pts) && AttachedUpTo(before, after, base, top, hook, first, pts, mappings, |mappings|)
  }

  /** With the leaves of the first `n` mappings only. */
  ghost predicate AttachedUpTo(before: seq<Pte>, after: seq<Pte>, base: nat, top: nat, hook: nat, first: nat, pts: nat,
                               mappings: seq<Mapping>, n: nat)
  {
    && |after| == |before| && top < |before| && hook < |before| && n <= |mappings|
    && (first + 1 + pts) * ENTRIES <= |before|
    && (forall k :: 0 <= k < |before| ==>
                    after[k] == AttachedEntry(before[k], base, top, hook, first, pts, mappings, n, k))
  }

  function AttachedEntry(was: Pte, base: nat, top: nat, hook: nat, first: nat, pts: nat, mappings: seq<Mapping>, n: nat,
                         k: nat): Pte
    requires n <= |mappings|
  {
    if first * ENTRIES <= k < (first + 1) * ENTRIES
    then UserPdEntry(base + PAGE_SIZE * first, pts, k - first * ENTRIES)
    else if (first + 1) * ENTRIES <= k < (first + 1 + pts) * ENTRIES
    then Leaf(mappings, n, k - (first + 1) * ENTRIES)
    else if k == hook then UserTable(base + PAGE_SIZE * first)
    else if k == top then was.(user := true)
    else was
  }

  /** What the user region must translate to. */
  function UserPolicy(mappings: seq<Mapping>, va: nat): Translation
    requires Gib(va) == USER_GIB
  {
    var leaf := Leaf(mappings, |mappings|, Page(va) - USER_PAGE);
    if leaf.present then Mapped(leaf.addr + va % PAGE_SIZE, leaf.writable, true) else Fault
  }

  /** Attached to kernel tables of at most four GiB, above them. */
  ghost predicate OverKernel(before: seq<Pte>, after: seq<Pte>, plan: Plan, regions: seq<Region>, first: nat, pts: nat,
                             mappings: seq<Mapping>)
  {
    && Built(before, plan, regions) && PlanOk(plan) && plan.pd <= USER_GIB && 2 + plan.pd + plan.pt <= first
    && Attached(before, after, plan.base, 0, ENTRIES + USER_GIB, first, pts, mappings)
  }

  /** Kernel addresses translate as before and stay closed to user mode. */
  lemma KernelIsolated(before: seq<Pte>, after: seq<Pte>, plan: Plan, regions: seq<Region>, first: nat, pts: nat,
                       mappings: seq<Mapping>, va: nat)
    requires OverKernel(before, after, plan, regions, first, pts, mappings) && va < VA_LIMIT && Gib(va) != USER_GIB
    ensures Walk(after, plan.base, plan.base, va) == Policy(plan, regions, va)
    ensures Walk(after, plan.base, plan.base, va) == Walk(before, plan.base, plan.base, va)
  {
    WalkBuilt(before, plan, regions, va);
    if Gib(va) < ENTRIES {
      assert after[ENTRIES + Gib(va)] == before[ENTRIES + Gib(va)] == PdptEntry(plan, Gib(va));
      LowerKept(before, after, plan, regions, first, pts, mappings);
      WalkIdentity(after, plan, regions, va);
    } else {
      Digits(va);
      SlotAt(after, plan.base, 0, Gib(va) / ENTRIES);
      assert after[Gib(va) / ENTRIES] == before[Gib(va) / ENTRIES] == Empty;
      AboveLimit(plan, regions, va);
    }
  }

  lemma LowerKept(before: seq<Pte>, after: seq<Pte>, plan: Plan, regions: seq<Region>, first: nat, pts: nat,
                  mappings: seq<Mapping>)
    requires OverKernel(before, after, plan, regions, first, pts, mappings)
    ensures LowerTables(after, plan, regions) && after[0].(user := false) == Table(PageAt(plan, 1))
  {
    forall k | 2 * ENTRIES <= k < (2 + plan.pd + plan.pt) * ENTRIES ensures after[k] == before[k] {
    }
  }

  /** Opening the top-level entry alone, which a refused request may have done, changes no translation. */
  lemma OpenedTopHarmless(before: seq<Pte>, plan: Plan, regions: seq<Region>, va: nat)
    requires Built(before, plan, regions) && PlanOk(plan) && va < VA_LIMIT
    ensures Walk(before[0 := before[0].(user := true)], plan.base, plan.base, va)
            == Walk(before, plan.base, plan.base, va)
  {
    var after := before[0 := before[0].(user := true)];
    WalkBuilt(before, plan, regions, va);
    Digits(va);
    if Gib(va) < ENTRIES {
      assert after[ENTRIES + Gib(va)] == PdptEntry(plan, Gib(va));
      WalkIdentity(after, plan, regions, va);
    } else {
      SlotAt(after, plan.base, 0, Gib(va) / ENTRIES);
      AboveLimit(plan, regions, va);
    }
  }

  /** User addresses translate exactly as the mappings say. */
  lemma UserTranslates(before: seq<Pte>, after: seq<Pte>, plan: Plan, regions: seq<Region>, first: nat, pts: nat,
                       mappings: seq<Mapping>, va: nat)
    requires OverKernel(before, after, plan, regions, first, pts, mappings) && Gib(va) == USER_GIB
    ensures Walk(after, plan.base, plan.base, va) == UserPolicy(mappings, va)
  {
    var q := Page(va) - USER_PAGE;
    UserDigits(va, q);
    TopSlots(before, after, plan, regions, first, pts, mappings);
    UserPdSlot(before, after, plan.base, first, pts, mappings, q / ENTRIES);
    if q < pts * ENTRIES {
      UserLeafSlot(before, after, plan.base, first, pts, mappings, q);
    } else {
      BeyondTables(mappings, |mappings|, pts, q);
    }
    WalkUserSlots(after, plan, first, pts, mappings, va, q);
  }

  /** The opened top-level entry and the hooked PDPT entry. */
  lemma TopSlots(before: seq<Pte>, after: seq<Pte>, plan: Plan, regions: seq<Region>, first: nat, pts: nat,
                 mappings: seq<Mapping>)
    requires OverKernel(before, after, plan, regions, first, pts, mappings)
    ensures Slot(after, plan.base, plan.base, 0) == Some(UserTable(PageAt(plan, 1)))
    ensures Slot(after, plan.base, PageAt(plan, 1), USER_GIB) == Some(UserTable(PageAt(plan, first)))
  {
    SlotAt(after, plan.base, 0, 0);
    SlotAt(after, plan.base, 1, USER_GIB);
    assert after[0] == UserTable(PageAt(plan, 1));
    assert after[ENTRIES + USER_GIB] == UserTable(PageAt(plan, first));
  }

  lemma UserDigits(va: nat, q: int)
    requires Gib(va) == USER_GIB && q == Page(va) - USER_PAGE
    ensures 0 <= q < ENTRIES * ENTRIES && q / ENTRIES == Block(va) % ENTRIES && q % ENTRIES == Page(va) % ENTRIES
  {
    Digits(va);
  }

  /** The walk, given the entries it meets. */
  lemma WalkUserSlots(after: seq<Pte>, plan: Plan, first: nat, pts: nat, mappings: seq<Mapping>, va: nat, q: nat)
    requires Gib(va) == USER_GIB && q == Page(va) - USER_PAGE
    requires q / ENTRIES == Block(va) % ENTRIES && q % ENTRIES == Page(va) % ENTRIES
    requires Slot(after, plan.base, plan.base, 0) == Some(UserTable(PageAt(plan, 1)))
    requires Slot(after, plan.base, PageAt(plan, 1), USER_GIB) == Some(UserTable(PageAt(plan, first)))
    requires Slot(after, plan.base, PageAt(plan, first), q / ENTRIES)
             == Some(UserPdEntry(PageAt(plan, first), pts, q / ENTRIES))
    requires if q / ENTRIES < pts
             then Slot(after, plan.base, PageAt(plan, first) + PAGE_SIZE * (1 + q / ENTRIES), q % ENTRIES)
                  == Some(Leaf(mappings, |mappings|, q))
             else Leaf(mappings, |mappings|, q) == Empty
    ensures Walk(after, plan.base, plan.base, va) == UserPolicy(mappings, va)
  {
  }

  lemma UserPdSlot(before: seq<Pte>, after: seq<Pte>, base: nat, first: nat, pts: nat, mappings: seq<Mapping>, i: nat)
    requires Attached(before, after, base, 0, ENTRIES + USER_GIB, first, pts, mappings) && i < ENTRIES
    ensures Slot(after, base, base + PAGE_SIZE * first, i) == Some(UserPdEntry(base + PAGE_SIZE * first, pts, i))
  {
    SlotAt(after, base, first, i);
    assert after[ENTRIES * first + i] == UserPdEntry(base + PAGE_SIZE * first, pts, i);
  }

  lemma UserLeafSlot(before: seq<Pte>, after: seq<Pte>, base: nat, first: nat, pts: nat, mappings: seq<Mapping>, q: nat)
    requires Attached(before, after, base, 0, ENTRIES + USER_GIB, first, pts, mappings) && q < pts * ENTRIES
    ensures Slot(after, base, base + PAGE_SIZE * first + PAGE_SIZE * (1 + q / ENTRIES), q % ENTRIES)
            == Some(Leaf(mappings, |mappings|, q))
  {
    LeafEntry(before, after, base, first, pts, mappings, q);
    SlotAfter(after, base, first, q);
  }

  /** Entry `n` of the tables that follow page `first`. */
  lemma SlotAfter(entries: seq<Pte>, base: nat, first: nat, n: nat)
    requires ENTRIES * (first + 1) + n < |entries|
    ensures Slot(entries, base, base + PAGE_SIZE * first + PAGE_SIZE * (1 + n / ENTRIES), n % ENTRIES)
            == Some(entries[ENTRIES * (first + 1) + n])
  {
    SlotInRun(entries, base, first + 1, n);
    var t := n / ENTRIES;
    assert base + PAGE_SIZE * first + PAGE_SIZE * (1 + t) == base + PAGE_SIZE * (first + 1 + t);
  }

  lemma LeafEntry(before: seq<Pte>, after: seq<Pte>, base: nat, first: nat, pts: nat, mappings: seq<Mapping>, q: nat)
    requires Attached(before, after, base, 0, ENTRIES + USER_GIB, first, pts, mappings) && q < pts * ENTRIES
    ensures ENTRIES * (first + 1) + q < |after|
    ensures after[ENTRIES * (first + 1) + q] == Leaf(mappings, |mappings|, q)
  {
    var k := ENTRIES * (first + 1) + q;
    assert after[k] == AttachedEntry(before[k], base, 0, ENTRIES + USER_GIB, first, pts, mappings, |mappings|, k);
  }

  lemma {:induction false} BeyondTables(mappings: seq<Mapping>, n: nat, pts: nat, q: nat)
    requires n <= |mappings| && Reaches(mappings, pts) && pts <= q / ENTRIES
    ensures Leaf(mappings, n, q) == Empty
  {
    if n == 0 {
    } else {
      assert mappings[n - 1].End() <= USER_BASE + pts * BLOCK_SIZE;
      BeyondTables(mappings, n - 1, pts, q);
    }
  }

  lemma {:induction false} LeafPresent(mappings: seq<Mapping>, n: nat, q: nat)
    requires n <= |mappings|
    ensures Leaf(mappings, n, q).present <==> exists i :: 0 <= i < n && mappings[i].Covers(q)
  {
    if n == 0 {
    } else {
      LeafPresent(mappings, n - 1, q);
    }
  }

  lemma {:induction false} LeafOfLast(mappings: seq<Mapping>, n: nat, i: nat, q: nat)
    requires i < n <= |mappings| && mappings[i].Covers(q)
    requires forall j :: i < j < n ==> !mappings[j].Covers(q)
    ensures Leaf(mappings, n, q) == mappings[i].LeafAt(q)
  {
    if i == n - 1 {
    } else {
      LeafOfLast(mappings, n - 1, i, q);
    }
  }

  /** Mapping `i` is the last one that holds the address. */
  ghost predicate LastHolder(mappings: seq<Mapping>, i: nat, va: nat) {
    && i < |mappings| && mappings[i].vaddr <= va < mappings[i].End()
    && forall j :: i < j < |mappings| ==> !(mappings[j].vaddr <= va < mappings[j].End())
  }

  /**
   User mode reaches exactly the bytes of the mappings, each at its physical place and with the
   rights of the last mapping that holds it.
   */
  lemma UserReach(before: seq<Pte>, after: seq<Pte>, plan: Plan, regions: seq<Region>, first: nat, pts: nat,
                  mappings: seq<Mapping>, va: nat)
    requires OverKernel(before, after, plan, regions, first, pts, mappings) && va < VA_LIMIT
    requires forall i :: 0 <= i < |mappings| ==> mappings[i].WellFormed()
    ensures (var t := Walk(after, plan.base, plan.base, va); t.Mapped? && t.user)
            <==> exists i :: 0 <= i < |mappings| && mappings[i].vaddr <= va < mappings[i].End()
    ensures forall i: nat :: LastHolder(mappings, i, va) ==>
                        Walk(after, plan.base, plan.base, va)
                        == Mapped(mappings[i].paddr + (va - mappings[i].vaddr), mappings[i].writable, true)
  {
    if Gib(va) == USER_GIB {
      UserTranslates(before, after, plan, regions, first, pts, mappings, va);
      UserPolicyHolds(mappings, va);
    } else {
      KernelIsolated(before, after, plan, regions, first, pts, mappings, va);
      forall i | 0 <= i < |mappings| ensures !(mappings[i].vaddr <= va < mappings[i].End()) {
        assert mappings[i].WellFormed();
        OutsideUser(va);
      }
    }
  }

  lemma UserPolicyHolds(mappings: seq<Mapping>, va: nat)
    requires Gib(va) == USER_GIB && forall i :: 0 <= i < |mappings| ==> mappings[i].WellFormed()
    ensures UserPolicy(mappings, va).Mapped? <==>
            exists i :: 0 <= i < |mappings| && mappings[i].vaddr <= va < mappings[i].End()
    ensures forall i: nat :: LastHolder(mappings, i, va) ==>
                        UserPolicy(mappings, va)
                        == Mapped(mappings[i].paddr + (va - mappings[i].vaddr), mappings[i].writable, true)
  {
    var q := Page(va) - USER_PAGE;
    UserDigits(va, q);
    LeafPresent(mappings, |mappings|, q);
    forall i | 0 <= i < |mappings|
      ensures mappings[i].Covers(q) <==> mappings[i].vaddr <= va < mappings[i].End()
    {
      WholePages(mappings[i], va, q);
    }
    Digits(va);
    forall i: nat | LastHolder(mappings, i, va)
      ensures UserPolicy(mappings, va)
              == Mapped(mappings[i].paddr + (va - mappings[i].vaddr), mappings[i].writable, true)
    {
      LeafOfLast(mappings, |mappings|, i, q);
    }
  }

  lemma WholePages(m: Mapping, va: nat, q: nat)
    requires m.WellFormed() && q == Page(va) - USER_PAGE
    ensures m.Covers(q) <==> m.vaddr <= va < m.End()
  {
    Digits(va);
  }

  lemma OutsideUser(va: nat)
    requires Gib(va) != USER_GIB
    ensures !(USER_BASE <= va < USER_BASE + USER_MAX_BYTES)
  {
  }
}

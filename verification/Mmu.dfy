/**
 Four-level address translation as the processor performs it: sections 4.5 and 4.6 of the
 Intel Software Developer's Manual, volume 3A, over tables held in one arena of physical memory.
 */
module Mmu {
  import opened MemoryMap
  import opened PageEntries
  import opened Wrappers

  const VA_LIMIT: nat := 0x1_0000_0000_0000
  const GIB: nat := 0x4000_0000

  /** Access rights are the conjunction of those of every level. */
  datatype Translation =
    | Fault
    | OffArena // a table outside the arena: its contents are unknown
    | Mapped(pa: nat, writable: bool, user: bool)

  /** Entry `index` of the table at physical address `table`, when that lies in the arena. */
  function Slot(entries: seq<Pte>, base: nat, table: nat, index: nat): Option<Pte> {
    if base <= table && (table - base) % PAGE_SIZE == 0 && (table - base) / 8 + index < |entries|
    then Some(entries[(table - base) / 8 + index]) else None
  }

  /** The walk, with the four table indices and the offset already taken from the address. */
  function WalkFrom(entries: seq<Pte>, base: nat, cr3: nat, i4: nat, i3: nat, i2: nat, i1: nat,
                    offset: nat): Translation
  {
    match Slot(entries, base, cr3, i4)
    case None => OffArena
    case Some(e4) =>
      if !e4.present || e4.large then Fault
      else match Slot(entries, base, e4.addr, i3)
           case None => OffArena
           case Some(e3) =>
             if !e3.present then Fault
             else if e3.large then
               if e3.addr % GIB != 0 then Fault
               else Mapped(e3.addr + (i2 * ENTRIES + i1) * PAGE_SIZE + offset,
                           e4.writable && e3.writable, e4.user && e3.user)
             else match Slot(entries, base, e3.addr, i2)
                  case None => OffArena
                  case Some(e2) =>
                    if !e2.present then Fault
                    else if e2.large then
                      if e2.addr % BLOCK_SIZE != 0 then Fault
                      else Mapped(e2.addr + i1 * PAGE_SIZE + offset,
                                  e4.writable && e3.writable && e2.writable, e4.user && e3.user && e2.user)
                    else match Slot(entries, base, e2.addr, i1)
                         case None => OffArena
                         case Some(e1) =>
                           if !e1.present then Fault
                           else Mapped(e1.addr + offset,
                                       e4.writable && e3.writable && e2.writable && e1.writable,
                                       e4.user && e3.user && e2.user && e1.user)
  }

  /** Page, 2 MiB block and 1 GiB numbers of an address. */
  function Page(va: nat): nat { va / PAGE_SIZE }

  function Block(va: nat): nat { Page(va) / ENTRIES }

  function Gib(va: nat): nat { Block(va) / ENTRIES }

  function Walk(entries: seq<Pte>, base: nat, cr3: nat, va: nat): Translation {
    WalkFrom(entries, base, cr3, Gib(va) / ENTRIES, Gib(va) % ENTRIES, Block(va) % ENTRIES, Page(va) % ENTRIES,
             va % PAGE_SIZE)
  }

  lemma SlotAt(entries: seq<Pte>, base: nat, p: nat, index: nat)
    requires ENTRIES * p + index < |entries|
    ensures Slot(entries, base, base + PAGE_SIZE * p, index) == Some(entries[ENTRIES * p + index])
  {
  }

  /** Entry `n` of a run of consecutive tables that starts at page `p` of the arena. */
  lemma SlotInRun(entries: seq<Pte>, base: nat, p: nat, n: nat)
    requires ENTRIES * p + n < |entries|
    ensures Slot(entries, base, base + PAGE_SIZE * (p + n / ENTRIES), n % ENTRIES) == Some(entries[ENTRIES * p + n])
  {
    var t, i := n / ENTRIES, n % ENTRIES;
    assert ENTRIES * (p + t) + i == ENTRIES * p + n;
    SlotAt(entries, base, p + t, i);
  }

  /** An address from its digits. */
  lemma Digits(va: nat)
    ensures va == Page(va) * PAGE_SIZE + va % PAGE_SIZE
    ensures Page(va) == Block(va) * ENTRIES + Page(va) % ENTRIES
    ensures Block(va) == Gib(va) * ENTRIES + Block(va) % ENTRIES
    ensures Gib(va) == Gib(va) / ENTRIES * ENTRIES + Gib(va) % ENTRIES
  {
  }
}

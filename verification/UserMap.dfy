/** Attaching the user region to the kernel's page tables. */
module UserMap {
  import opened LittleEndian
  import opened MemoryMap
  import opened Mmu
  import opened PageEntries
  import opened UserMapModel
  import opened Wrappers

  datatype MapReport = MapReport(mappedBytes: nat, tablesUsed: nat)

  datatype MapError =
    | ArenaTooSmall(needed: nat, got: nat)
    | BelowUserBase(vaddr: nat)
    | NotPageAligned(value: nat)
    | OutOfRange(vaddrEnd: nat)
    | AlreadyMapped

  /** What is wrong with one mapping, if anything. */
  function Complaint(m: Mapping): (e: Option<MapError>)
    ensures e.None? <==> m.WellFormed()
  {
    if m.vaddr < USER_BASE then Some(BelowUserBase(m.vaddr))
    else if m.End() > USER_BASE + USER_MAX_BYTES then Some(OutOfRange(m.End()))
    else if m.vaddr % PAGE_SIZE != 0 || m.paddr % PAGE_SIZE != 0 || m.size % PAGE_SIZE != 0 || m.size == 0
    then Some(NotPageAligned(m.vaddr))
    else None
  }

  /** Mapping `n` whole pages at page `a` of the user region to frame `b`. */
  function WholePagesAt(a: nat, b: nat, n: nat, writable: bool): Mapping {
    Mapping(USER_BASE + a * PAGE_SIZE, b * PAGE_SIZE, n * PAGE_SIZE, writable)
  }

  /** What is accepted, exactly: some whole pages of the user region, to whole frames. */
  lemma WellFormedIff(m: Mapping)
    ensures m.WellFormed() <==>
            exists a: nat, b: nat, n: nat :: && 0 < n && a + n <= ENTRIES * ENTRIES
                                             && m == WholePagesAt(a, b, n, m.writable)
  {
    if m.WellFormed() {
      var a, b, n := (m.vaddr - USER_BASE) / PAGE_SIZE, m.paddr / PAGE_SIZE, m.size / PAGE_SIZE;
      assert m == WholePagesAt(a, b, n, m.writable) && 0 < n && a + n <= ENTRIES * ENTRIES;
    }
  }

  ghost predicate AllWellFormed(mappings: seq<Mapping>) {
    forall i :: 0 <= i < |mappings| ==> mappings[i].WellFormed()
  }

  /** The first ill-formed mapping is the one reported. */
  ghost predicate FirstComplaint(mappings: seq<Mapping>, e: MapError) {
    exists i :: 0 <= i < |mappings| && Complaint(mappings[i]) == Some(e) && AllWellFormed(mappings[..i])
  }

  method Validate(mappings: seq<Mapping>) returns (e: Option<MapError>)
    ensures e.None? ==> AllWellFormed(mappings)
    ensures e.Some? ==> FirstComplaint(mappings, e.value)
  {
    for i := 0 to |mappings|
      invariant AllWellFormed(mappings[..i])
    {
      e := Complaint(mappings[i]);
      if e.Some? {
        return;
      }
    }
    assert mappings[..|mappings|] == mappings;
    e := None;
  }

  /** Tables for the highest mapping: just enough. */
  method TablesFor(mappings: seq<Mapping>) returns (pts: nat)
    requires AllWellFormed(mappings) && |mappings| > 0
    ensures 0 < pts <= ENTRIES && Reaches(mappings, pts) && !Reaches(mappings, pts - 1)
  {
    var highest := 0;
    for n := 0 to |mappings|
      invariant highest < ENTRIES && Reaches(mappings[..n], highest + 1)
      invariant if n == 0 then highest == 0 else !Reaches(mappings[..n], highest)
    {
      var m := mappings[n];
      var last := (m.End() - USER_BASE - 1) / PAGE_SIZE / ENTRIES;
      LastSlot(m, last);
      assert mappings[..n + 1][n] == m;
      if n > 0 {
        NotReaching(mappings, n, highest);
      }
      if last > highest {
        highest := last;
      }
    }
    assert mappings[..|mappings|] == mappings;
    pts := highest + 1;
  }

  lemma LastSlot(m: Mapping, last: nat)
    requires m.WellFormed() && last == (m.End() - USER_BASE - 1) / PAGE_SIZE / ENTRIES
    ensures last < ENTRIES
    ensures USER_BASE + last * BLOCK_SIZE < m.End() <= USER_BASE + (last + 1) * BLOCK_SIZE
  {
  }

  lemma NotReaching(mappings: seq<Mapping>, n: nat, pts: nat)
    requires n < |mappings| && !Reaches(mappings[..n], pts)
    ensures !Reaches(mappings[..n + 1], pts)
  {
    var i :| 0 <= i < n && mappings[..n][i].End() > USER_BASE + pts * BLOCK_SIZE;
    assert mappings[..n + 1][i] == mappings[i];
  }

  function TotalSize(mappings: seq<Mapping>, n: nat): nat
    requires n <= |mappings|
  {
    if n == 0 then 0 else TotalSize(mappings, n - 1) + mappings[n - 1].size
  }

  /** The pages of a well-formed mapping are consecutive. */
  lemma CoversRange(m: Mapping, q: nat)
    requires m.WellFormed()
    ensures var low := (m.vaddr - USER_BASE) / PAGE_SIZE;
            m.Covers(q) <==> low <= q < low + m.size / PAGE_SIZE
  {
  }

  /** The directory, hooked into the PDPT, and its empty tables. */
  method LinkUserTables(arena: array<byte>, base: nat, hook: nat, first: nat, pts: nat) returns (next: nat)
    requires base % PAGE_SIZE == 0 && base + arena.Length <= PHYS_LIMIT && pts <= ENTRIES
    requires (first + 1 + pts) * PAGE_SIZE <= arena.Length && hook < first * ENTRIES
    modifies arena
    ensures LinkedUpTo(old(Entries(arena[..])), Entries(arena[..]), base, hook, first, pts)
    ensures next == first + 1 + pts
  {
    ghost var before := Entries(arena[..]);
    ClearEntries(arena, first * ENTRIES, ENTRIES);
    WriteEntry(arena, hook, UserTable(base + PAGE_SIZE * first));
    next := first + 1;
    while next < first + 1 + pts
      invariant first + 1 <= next <= first + 1 + pts
      invariant LinkedUpTo(before, Entries(arena[..]), base, hook, first, next - first - 1)
    {
      ghost var was := Entries(arena[..]);
      LinkTable(arena, base, first, next);
      LinkStep(before, was, Entries(arena[..]), base, hook, first, next);
      next := next + 1;
    }
  }

  /** Clears table `next` and enters it in the directory. */
  method LinkTable(arena: array<byte>, base: nat, first: nat, next: nat)
    requires base % PAGE_SIZE == 0 && base + arena.Length <= PHYS_LIMIT
    requires first < next <= first + ENTRIES && (next + 1) * PAGE_SIZE <= arena.Length
    modifies arena
    ensures TableLinked(old(Entries(arena[..])), Entries(arena[..]), base, first, next)
  {
    ClearEntries(arena, next * ENTRIES, ENTRIES);
    WriteEntry(arena, first * ENTRIES + (next - first - 1), UserTable(base + PAGE_SIZE * next));
  }

  ghost predicate TableLinked(was: seq<Pte>, now: seq<Pte>, base: nat, first: nat, next: nat) {
    && |now| == |was|
    && forall k :: 0 <= k < |was| ==>
                   now[k] == if k == first * ENTRIES + (next - first - 1) then UserTable(base + PAGE_SIZE * next)
                             else if next * ENTRIES <= k < (next + 1) * ENTRIES then Empty
                             else was[k]
  }

  lemma LinkStep(before: seq<Pte>, was: seq<Pte>, now: seq<Pte>, base: nat, hook: nat, first: nat, next: nat)
    requires first < next <= first + ENTRIES && hook < first * ENTRIES && (next + 1) * ENTRIES <= |before|
    requires LinkedUpTo(before, was, base, hook, first, next - first - 1)
    requires TableLinked(was, now, base, first, next)
    ensures LinkedUpTo(before, now, base, hook, first, next - first)
  {
    forall k | 0 <= k < |before| ensures now[k] == LinkedEntry(before[k], base, hook, first, next - first, k) {
      assert was[k] == LinkedEntry(before[k], base, hook, first, next - first - 1, k);
    }
  }

  ghost predicate LinkedUpTo(before: seq<Pte>, now: seq<Pte>, base: nat, hook: nat, first: nat, n: nat) {
    && |now| == |before| && (first + 1 + n) * ENTRIES <= |before|
    && forall k :: 0 <= k < |before| ==> now[k] == LinkedEntry(before[k], base, hook, first, n, k)
  }

  function LinkedEntry(was: Pte, base: nat, hook: nat, first: nat, n: nat, k: nat): Pte {
    if first * ENTRIES <= k < (first + 1) * ENTRIES
    then UserPdEntry(base + PAGE_SIZE * first, n, k - first * ENTRIES)
    else if (first + 1) * ENTRIES <= k < (first + 1 + n) * ENTRIES then Empty
    else if k == hook then UserTable(base + PAGE_SIZE * first)
    else was
  }

  /** Empty tables are the attachment of no mapping. */
  lemma LinkedAttaches(before: seq<Pte>, now: seq<Pte>, base: nat, top: nat, hook: nat, first: nat, pts: nat,
                       mappings: seq<Mapping>)
    requires LinkedUpTo(before, now, base, hook, first, pts)
    requires top < |before| && hook < |before| && before[top].user
    ensures AttachedUpTo(before, now, base, top, hook, first, pts, mappings, 0)
  {
    forall k | 0 <= k < |before|
      ensures now[k] == AttachedEntry(before[k], base, top, hook, first, pts, mappings, 0, k)
    {
      assert now[k] == LinkedEntry(before[k], base, hook, first, pts, k);
    }
  }

  /** Where page `index` of a mapping goes. */
  lemma LeafPlace(m: Mapping, index: nat)
    requires m.WellFormed() && m.paddr + m.size <= PHYS_LIMIT && index < m.size / PAGE_SIZE
    ensures var page := (m.vaddr + index * PAGE_SIZE - USER_BASE) / PAGE_SIZE;
            && page == (m.vaddr - USER_BASE) / PAGE_SIZE + index
            && page < (m.End() - USER_BASE) / PAGE_SIZE
            && m.vaddr <= USER_BASE + page * PAGE_SIZE
            && Pte(true, m.writable, true, false, m.paddr + index * PAGE_SIZE) == m.LeafAt(page)
            && Encodable(m.LeafAt(page))
  {
  }

  /** The entry of a mapping's pages, from entry `start` of the tables on, among the first `n`. */
  ghost predicate MappingFilled(before: seq<Pte>, now: seq<Pte>, first: nat, m: Mapping, n: nat)
    requires m.WellFormed()
  {
    && |now| == |before|
    && forall k :: 0 <= k < |before| ==> now[k] == FilledEntry(before[k], first, m, n, k)
  }

  function FilledEntry(was: Pte, first: nat, m: Mapping, n: nat, k: nat): Pte
    requires m.WellFormed()
  {
    var q := k - (first + 1) * ENTRIES;
    var low := (m.vaddr - USER_BASE) / PAGE_SIZE;
    if low <= q < low + n then m.LeafAt(q) else was
  }

  /** The leaves of one mapping. */
  method FillMapping(arena: array<byte>, first: nat, m: Mapping, mapped: nat) returns (mapped': nat)
    requires m.WellFormed() && m.paddr + m.size <= PHYS_LIMIT
    requires (first + 1) * ENTRIES + (m.End() - USER_BASE) / PAGE_SIZE <= arena.Length / 8
    modifies arena
    ensures MappingFilled(old(Entries(arena[..])), Entries(arena[..]), first, m, m.size / PAGE_SIZE)
    ensures mapped' == mapped + m.size
  {
    ghost var before := Entries(arena[..]);
    mapped' := mapped;
    for index := 0 to m.size / PAGE_SIZE
      invariant MappingFilled(before, Entries(arena[..]), first, m, index)
      invariant mapped' == mapped + PAGE_SIZE * index
    {
      LeafPlace(m, index);
      var page := (m.vaddr + index * PAGE_SIZE - USER_BASE) / PAGE_SIZE;
      var slot, entry := page / ENTRIES, page % ENTRIES;
      WriteEntry(arena, (first + 1 + slot) * ENTRIES + entry,
                 Pte(true, m.writable, true, false, m.paddr + index * PAGE_SIZE));
      mapped' := mapped' + PAGE_SIZE;
    }
  }

  lemma AttachNext(before: seq<Pte>, was: seq<Pte>, now: seq<Pte>, base: nat, top: nat, hook: nat, first: nat, pts: nat,
                   mappings: seq<Mapping>, n: nat)
    requires AttachedUpTo(before, was, base, top, hook, first, pts, mappings, n) && n < |mappings|
    requires mappings[n].WellFormed() && mappings[n].End() <= USER_BASE + pts * BLOCK_SIZE
    requires MappingFilled(was, now, first, mappings[n], mappings[n].size / PAGE_SIZE)
    ensures AttachedUpTo(before, now, base, top, hook, first, pts, mappings, n + 1)
  {
    forall k | 0 <= k < |before|
      ensures now[k] == AttachedEntry(before[k], base, top, hook, first, pts, mappings, n + 1, k)
    {
      assert was[k] == AttachedEntry(before[k], base, top, hook, first, pts, mappings, n, k);
      if (first + 1) * ENTRIES <= k {
        CoversRange(mappings[n], k - (first + 1) * ENTRIES);
      }
    }
  }

  // ----- the whole request -----

  /** The entry indices a request works on: the PML4 entry, and the PDPT entry of the user GiB. */
  function Top(pml4Offset: nat): nat { pml4Offset / 8 }

  function Hook(entries: seq<Pte>, base: nat, pml4Offset: nat): nat
    requires Top(pml4Offset) < |entries| && base <= entries[Top(pml4Offset)].addr
  {
    (entries[Top(pml4Offset)].addr - base) / 8 + USER_GIB
  }

  /** The caller's side: the live PML4 and its PDPT are whole pages of the arena below the first free one. */
  ghost predicate KernelTables(entries: seq<Pte>, base: nat, pml4Offset: nat, firstFree: nat) {
    && pml4Offset + PAGE_SIZE <= firstFree && pml4Offset + PAGE_SIZE <= 8 * |entries|
    && var e := entries[Top(pml4Offset)];
       e.present ==>
         && base <= e.addr
         && e.addr - base + PAGE_SIZE <= firstFree && e.addr - base + PAGE_SIZE <= 8 * |entries|
  }

  ghost predicate MappingsFit(mappings: seq<Mapping>) {
    forall i :: 0 <= i < |mappings| ==>
                mappings[i].End() < U64_LIMIT && mappings[i].paddr + mappings[i].size <= PHYS_LIMIT
  }

  ghost predicate JustReaches(mappings: seq<Mapping>, pts: nat) {
    0 < pts && Reaches(mappings, pts) && !Reaches(mappings, pts - 1)
  }

  function Opened(entries: seq<Pte>, top: nat): seq<Pte>
    requires top < |entries|
  {
    entries[top := entries[top].(user := true)]
  }

  /** The end of a request that passed every check on its arguments. */
  ghost predicate Outcome(before: seq<Pte>, after: seq<Pte>, base: nat, top: nat, hook: nat, firstFree: nat, pages: nat,
                          mappings: seq<Mapping>, pts: nat, r: Result<MapReport, MapError>)
    requires top < |before|
  {
    var first := firstFree / PAGE_SIZE;
    if pages < first + 1 + pts
    then r == Err(ArenaTooSmall(first + 1 + pts, pages)) && after == Opened(before, top)
    else && r == Ok(MapReport(TotalSize(mappings, |mappings|), 1 + pts))
         && Attached(before, after, base, top, hook, first, pts, mappings)
  }

  /** `entry | USER`. */
  method OpenTop(arena: array<byte>, top: nat, e: nat)
    requires top < arena.Length / 8 && e < U64_LIMIT && DecodePte(e) == Entries(arena[..])[top]
    modifies arena
    ensures Entries(arena[..]) == Opened(old(Entries(arena[..])), top)
  {
    if e / 4 % 2 == 0 {
      SetUserBit(e);
      WriteWord(arena, top, e + 4);
    }
  }

  method Attach(arena: array<byte>, base: nat, ghost top: nat, hook: nat, first: nat, pts: nat, mappings: seq<Mapping>)
    returns (r: MapReport)
    requires base % PAGE_SIZE == 0 && base + arena.Length <= PHYS_LIMIT && pts <= ENTRIES
    requires (first + 1 + pts) * PAGE_SIZE <= arena.Length && top < first * ENTRIES && hook < first * ENTRIES
    requires Entries(arena[..])[top].user
    requires AllWellFormed(mappings) && MappingsFit(mappings) && Reaches(mappings, pts)
    modifies arena
    ensures Attached(old(Entries(arena[..])), Entries(arena[..]), base, top, hook, first, pts, mappings)
    ensures r == MapReport(TotalSize(mappings, |mappings|), 1 + pts)
  {
    ghost var before := Entries(arena[..]);
    var next := LinkUserTables(arena, base, hook, first, pts);
    LinkedAttaches(before, Entries(arena[..]), base, top, hook, first, pts, mappings);
    var mapped := 0;
    for n := 0 to |mappings|
      invariant AttachedUpTo(before, Entries(arena[..]), base, top, hook, first, pts, mappings, n)
      invariant mapped == TotalSize(mappings, n)
    {
      ghost var was := Entries(arena[..]);
      assert mappings[n].WellFormed() && mappings[n].End() <= USER_BASE + pts * BLOCK_SIZE;
      mapped := FillMapping(arena, first, mappings[n], mapped);
      AttachNext(before, was, Entries(arena[..]), base, top, hook, first, pts, mappings, n);
    }
    r := MapReport(mapped, next - first);
  }

  lemma OpenedThenAttached(before: seq<Pte>, after: seq<Pte>, base: nat, top: nat, hook: nat, first: nat, pts: nat,
                           mappings: seq<Mapping>)
    requires top < |before| && Attached(Opened(before, top), after, base, top, hook, first, pts, mappings)
    ensures Attached(before, after, base, top, hook, first, pts, mappings)
  {
    var open := Opened(before, top);
    forall k | 0 <= k < |before|
      ensures after[k] == AttachedEntry(before[k], base, top, hook, first, pts, mappings, |mappings|, k)
    {
      assert after[k] == AttachedEntry(open[k], base, top, hook, first, pts, mappings, |mappings|, k);
    }
  }

  /**
   Maps physical pages at user addresses. Errors are found in the order of the clauses; those about
   the arguments leave the arena alone, the later ones have opened the top-level entry.
   */
  method MapUserRegion(arena: array<byte>, base: nat, pml4Offset: nat, firstFree: nat, mappings: seq<Mapping>)
    returns (r: Result<MapReport, MapError>)
    requires base + arena.Length <= PHYS_LIMIT && MappingsFit(mappings)
    requires base % PAGE_SIZE == 0 && pml4Offset % PAGE_SIZE == 0 && firstFree % PAGE_SIZE == 0 ==>
               KernelTables(Entries(arena[..]), base, pml4Offset, firstFree)
    modifies arena
    ensures base % PAGE_SIZE != 0 ==> r == Err(NotPageAligned(base))
    ensures base % PAGE_SIZE == 0 && !(firstFree % PAGE_SIZE == 0 && pml4Offset % PAGE_SIZE == 0) ==>
              r == Err(NotPageAligned(firstFree))
    ensures Placed(base, pml4Offset, firstFree) && mappings == [] ==> r == Ok(MapReport(0, 0))
    ensures Placed(base, pml4Offset, firstFree) && !AllWellFormed(mappings) ==>
              r.Err? && FirstComplaint(mappings, r.error)
    ensures Placed(base, pml4Offset, firstFree) && mappings != [] && AllWellFormed(mappings) ==>
              Answer(old(Entries(arena[..])), Entries(arena[..]), base, pml4Offset, firstFree, arena.Length,
                     mappings, r)
    ensures !Placed(base, pml4Offset, firstFree) || mappings == [] || !AllWellFormed(mappings) ==>
              arena[..] == old(arena[..])
  {
    if base % PAGE_SIZE != 0 {
      return Err(NotPageAligned(base));
    }
    if firstFree % PAGE_SIZE != 0 || pml4Offset % PAGE_SIZE != 0 {
      return Err(NotPageAligned(firstFree));
    }
    if mappings == [] {
      return Ok(MapReport(0, 0));
    }
    var bad := Validate(mappings);
    if bad.Some? {
      return Err(bad.value);
    }
    r := MapChecked(arena, base, pml4Offset, firstFree, mappings);
  }

  ghost predicate Placed(base: nat, pml4Offset: nat, firstFree: nat) {
    base % PAGE_SIZE == 0 && pml4Offset % PAGE_SIZE == 0 && firstFree % PAGE_SIZE == 0
  }

  /** The answer to a well-formed request, by the state of the tables. */
  ghost predicate Answer(before: seq<Pte>, after: seq<Pte>, base: nat, pml4Offset: nat, firstFree: nat, len: nat,
                         mappings: seq<Mapping>, r: Result<MapReport, MapError>)
    requires KernelTables(before, base, pml4Offset, firstFree)
  {
    var top := Top(pml4Offset);
    if !before[top].present then r == Err(BelowUserBase(pml4Offset)) && after == before
    else Below(before, after, base, top, Hook(before, base, pml4Offset), firstFree, len, mappings, r)
  }

  ghost predicate Below(before: seq<Pte>, after: seq<Pte>, base: nat, top: nat, hook: nat, firstFree: nat, len: nat,
                        mappings: seq<Mapping>, r: Result<MapReport, MapError>)
    requires top < |before| && hook < |before|
  {
    if before[hook].present then r == Err(AlreadyMapped) && after == Opened(before, top)
    else exists pts ::
           JustReaches(mappings, pts)
           && Outcome(before, after, base, top, hook, firstFree, len / PAGE_SIZE, mappings, pts, r)
  }

  /** Both entries lie below the free pages, and they differ. */
  lemma EntryPlaces(pml4Offset: nat, pdpt: nat, firstFree: nat)
    requires pml4Offset % PAGE_SIZE == 0 && pdpt % PAGE_SIZE == 0 && firstFree % PAGE_SIZE == 0
    requires pml4Offset + PAGE_SIZE <= firstFree && pdpt + PAGE_SIZE <= firstFree
    ensures Top(pml4Offset) != pdpt / 8 + USER_GIB
    ensures Top(pml4Offset) < firstFree / PAGE_SIZE * ENTRIES && pdpt / 8 + USER_GIB < firstFree / PAGE_SIZE * ENTRIES
  {
  }

  method MapChecked(arena: array<byte>, base: nat, pml4Offset: nat, firstFree: nat, mappings: seq<Mapping>)
    returns (r: Result<MapReport, MapError>)
    requires base + arena.Length <= PHYS_LIMIT && MappingsFit(mappings) && AllWellFormed(mappings) && mappings != []
    requires Placed(base, pml4Offset, firstFree) && KernelTables(Entries(arena[..]), base, pml4Offset, firstFree)
    modifies arena
    ensures Answer(old(Entries(arena[..])), Entries(arena[..]), base, pml4Offset, firstFree, arena.Length, mappings, r)
  {
    var top := Top(pml4Offset);
    var e := ReadWord(arena, top);
    if e % 2 == 0 {
      return Err(BelowUserBase(pml4Offset));
    }
    var hook := (DecodePte(e).addr - base) / 8 + USER_GIB;
    HookPlace(Entries(arena[..]), base, pml4Offset, firstFree);
    r := MapUnder(arena, base, top, e, hook, firstFree, mappings);
  }

  lemma HookPlace(entries: seq<Pte>, base: nat, pml4Offset: nat, firstFree: nat)
    requires Placed(base, pml4Offset, firstFree) && KernelTables(entries, base, pml4Offset, firstFree)
    requires var e := entries[Top(pml4Offset)]; e.present && e.addr % PAGE_SIZE == 0
    ensures var top, hook := Top(pml4Offset), Hook(entries, base, pml4Offset);
            && top != hook && top < |entries| && hook < |entries|
            && top < firstFree / PAGE_SIZE * ENTRIES && hook < firstFree / PAGE_SIZE * ENTRIES
  {
    EntryPlaces(pml4Offset, entries[Top(pml4Offset)].addr - base, firstFree);
  }

  /** Everything below the present top-level entry `e`. */
  method MapUnder(arena: array<byte>, base: nat, top: nat, e: nat, hook: nat, firstFree: nat, mappings: seq<Mapping>)
    returns (r: Result<MapReport, MapError>)
    requires base + arena.Length <= PHYS_LIMIT && MappingsFit(mappings) && AllWellFormed(mappings) && mappings != []
    requires base % PAGE_SIZE == 0 && top != hook && top < arena.Length / 8 && hook < arena.Length / 8
    requires top < firstFree / PAGE_SIZE * ENTRIES && hook < firstFree / PAGE_SIZE * ENTRIES
    requires e < U64_LIMIT && DecodePte(e) == Entries(arena[..])[top]
    modifies arena
    ensures Below(old(Entries(arena[..])), Entries(arena[..]), base, top, hook, firstFree, arena.Length, mappings, r)
  {
    ghost var before := Entries(arena[..]);
    OpenTop(arena, top, e);
    var h := ReadWord(arena, hook);
    if h % 2 == 1 {
      return Err(AlreadyMapped);
    }
    var pts := TablesFor(mappings);
    var first := firstFree / PAGE_SIZE;
    if arena.Length / PAGE_SIZE < first + 1 + pts {
      r := Err(ArenaTooSmall(first + 1 + pts, arena.Length / PAGE_SIZE));
    } else {
      var mapped := Attach(arena, base, top, hook, first, pts, mappings);
      OpenedThenAttached(before, Entries(arena[..]), base, top, hook, first, pts, mappings);
      r := Ok(mapped);
    }
    assert JustReaches(mappings, pts)
           && Outcome(before, Entries(arena[..]), base, top, hook, firstFree, arena.Length / PAGE_SIZE,
                      mappings, pts, r);
  }
}

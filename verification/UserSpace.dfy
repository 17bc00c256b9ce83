/** From an image file to user addresses: the loaded image seen through the attached user region. */
module UserSpace {
  import opened Image
  import opened LittleEndian
  import opened Loader
  import opened MemoryMap
  import opened Mmu
  import opened PageEntries
  import Paging
  import opened PagingModel
  import opened UserMap
  import opened UserMapModel
  import opened Wrappers

  const USER_STACK_PAGES: nat := 4
  const USER_STACK_VA: nat := USER_BASE + 0x20_0000

  /** A request over kernel tables finds them where it expects them. */
  lemma BuiltTables(entries: seq<Pte>, plan: Plan, regions: seq<Region>, firstFree: nat)
    requires Built(entries, plan, regions) && PlanOk(plan) && (2 + plan.pd + plan.pt) * PAGE_SIZE <= firstFree
    ensures KernelTables(entries, plan.base, 0, firstFree)
    ensures entries[0].present && Hook(entries, plan.base, 0) == ENTRIES + USER_GIB
    ensures entries[ENTRIES + USER_GIB].present <==> USER_GIB < plan.pd
  {
    assert entries[ENTRIES + USER_GIB] == PdptEntry(plan, USER_GIB);
  }

  /**
   Attaching the user region to built kernel tables: success translates exactly the mappings for
   user mode and leaves every other address as it was; failure changes no translation at all.
   */
  method InstallUser(arena: array<byte>, base: nat, firstFree: nat, mappings: seq<Mapping>,
                     ghost plan: Plan, ghost regions: seq<Region>)
    returns (r: Result<MapReport, MapError>)
    requires base == plan.base && base + arena.Length <= PHYS_LIMIT && MappingsFit(mappings) && mappings != []
    requires Built(Entries(arena[..]), plan, regions) && PlanOk(plan)
    requires firstFree % PAGE_SIZE == 0 && (2 + plan.pd + plan.pt) * PAGE_SIZE <= firstFree
    modifies arena
    ensures r.Err? ==> SameTranslation(old(Entries(arena[..])), Entries(arena[..]), base)
    ensures r.Ok? <==> AllWellFormed(mappings) && plan.pd <= USER_GIB
                       && TablesRoom(mappings, firstFree / PAGE_SIZE, arena.Length / PAGE_SIZE)
    ensures r.Ok? ==> exists pts :: OverKernel(old(Entries(arena[..])), Entries(arena[..]), plan, regions,
                                               firstFree / PAGE_SIZE, pts, mappings)
  {
    ghost var before := Entries(arena[..]);
    BuiltTables(before, plan, regions, firstFree);
    r := MapUserRegion(arena, base, 0, firstFree, mappings);
    if AllWellFormed(mappings) {
      Answered(before, Entries(arena[..]), plan, regions, firstFree, arena.Length, mappings, r);
    }
  }

  /** The directory and just enough tables fit behind the first `first` of the arena's pages. */
  ghost predicate TablesRoom(mappings: seq<Mapping>, first: nat, pages: nat) {
    exists pts :: JustReaches(mappings, pts) && first + 1 + pts <= pages
  }

  lemma JustOne(mappings: seq<Mapping>, a: nat, b: nat)
    requires JustReaches(mappings, a) && JustReaches(mappings, b)
    ensures a == b
  {
    assert Reaches(mappings, a) && Reaches(mappings, b) && !Reaches(mappings, a - 1) && !Reaches(mappings, b - 1);
  }

  lemma RoomDecides(mappings: seq<Mapping>, first: nat, pages: nat, pts: nat)
    requires JustReaches(mappings, pts)
    ensures TablesRoom(mappings, first, pages) <==> first + 1 + pts <= pages
  {
    if TablesRoom(mappings, first, pages) {
      var other :| JustReaches(mappings, other) && first + 1 + other <= pages;
      JustOne(mappings, pts, other);
    }
  }

  ghost predicate SameTranslation(before: seq<Pte>, after: seq<Pte>, base: nat) {
    forall va: nat :: va < VA_LIMIT ==> Walk(after, base, base, va) == Walk(before, base, base, va)
  }

  lemma Answered(before: seq<Pte>, after: seq<Pte>, plan: Plan, regions: seq<Region>, firstFree: nat, len: nat,
                 mappings: seq<Mapping>, r: Result<MapReport, MapError>)
    requires Built(before, plan, regions) && PlanOk(plan) && firstFree % PAGE_SIZE == 0
    requires (2 + plan.pd + plan.pt) * PAGE_SIZE <= firstFree && KernelTables(before, plan.base, 0, firstFree)
    requires Answer(before, after, plan.base, 0, firstFree, len, mappings, r)
    ensures r.Err? ==> SameTranslation(before, after, plan.base)
    ensures r.Ok? <==> plan.pd <= USER_GIB && TablesRoom(mappings, firstFree / PAGE_SIZE, len / PAGE_SIZE)
    ensures r.Ok? ==> exists pts :: OverKernel(before, after, plan, regions, firstFree / PAGE_SIZE, pts, mappings)
  {
    BuiltTables(before, plan, regions, firstFree);
    var hook, first := ENTRIES + USER_GIB, firstFree / PAGE_SIZE;
    assert Below(before, after, plan.base, 0, hook, firstFree, len, mappings, r);
    if !before[hook].present {
      var pts :| JustReaches(mappings, pts)
                 && Outcome(before, after, plan.base, 0, hook, firstFree, len / PAGE_SIZE, mappings, pts, r);
      RoomDecides(mappings, first, len / PAGE_SIZE, pts);
      assert r.Ok? ==> OverKernel(before, after, plan, regions, first, pts, mappings);
    }
    if r.Err? {
      assert after == Opened(before, 0);
      forall va: nat | va < VA_LIMIT
        ensures Walk(after, plan.base, plan.base, va) == Walk(before, plan.base, plan.base, va)
      {
        OpenedTopHarmless(before, plan, regions, va);
      }
    }
  }

  // ----- the image -----

  /** Where the boot loader says the image goes: the load address moved by the first segment's offset. */
  function UserVaddr(image: LoadedImage): nat {
    AsU64(AsI64(image.base) + image.vaddrDelta)
  }

  /** A signed 64-bit number read as an address. */
  function AsU64(i: int): nat { if 0 <= i then i else i % U64_LIMIT }

  /** The image read-only, then the stack. */
  function ImageMappings(image: LoadedImage, stackStart: nat): seq<Mapping> {
    [Mapping(UserVaddr(image), image.base, image.size, false),
     Mapping(USER_STACK_VA, stackStart, USER_STACK_PAGES * PAGE_SIZE, true)]
  }

  predicate InStack(va: nat) { USER_STACK_VA <= va < USER_STACK_VA + USER_STACK_PAGES * PAGE_SIZE }

  /** All segments are linked at one page-aligned distance from where they are loaded, as the linker script does. */
  ghost predicate Uniform(segments: seq<Segment>, delta: int) {
    delta % PAGE_SIZE == 0
    && forall i :: 0 <= i < |segments| ==>
                segments[i].vaddr == segments[i].paddr + delta && segments[i].vaddr < U64_LIMIT / 2
                && segments[i].End() < U64_LIMIT / 2
  }

  /** The byte of segment `i` linked at `x`. */
  function LoadAddress(s: Segment, x: nat): int { s.paddr + (x - s.vaddr) }

  lemma VaddrNotNegative(image: LoadedImage, data: seq<byte>)
    requires Describes(image, data) && Uniform(ImageTrace(data).segments, image.vaddrDelta)
    ensures 0 <= image.base + image.vaddrDelta < U64_LIMIT / 2 && UserVaddr(image) == image.base + image.vaddrDelta
  {
    var all := ImageTrace(data).segments;
    var i :| 0 <= i < |all| && all[i].PageStart() == image.base;
    PageVaddr(all[i], image.base, image.vaddrDelta);
  }

  lemma PageVaddr(s: Segment, base: nat, delta: int)
    requires s.PageStart() == base && s.vaddr == s.paddr + delta && delta % PAGE_SIZE == 0
    ensures 0 <= base + delta <= s.vaddr && base <= s.paddr
  {
    SamePageOffset(s.paddr, delta);
  }

  lemma SamePageOffset(p: nat, delta: int)
    requires delta % PAGE_SIZE == 0 && 0 <= p + delta
    ensures p / PAGE_SIZE * PAGE_SIZE <= p && 0 <= p / PAGE_SIZE * PAGE_SIZE + delta
  {
  }

  lemma ImageAddress(image: LoadedImage, data: seq<byte>, i: nat, x: nat)
    requires Describes(image, data) && i < |ImageTrace(data).segments|
    requires Uniform(ImageTrace(data).segments, image.vaddrDelta)
    requires var s := ImageTrace(data).segments[i]; s.vaddr <= x < s.vaddr + s.memsz
    ensures var s := ImageTrace(data).segments[i];
            && UserVaddr(image) == image.base + image.vaddrDelta
            && s.Contains(LoadAddress(s, x))
            && UserVaddr(image) <= x < UserVaddr(image) + image.size
            && image.base + (x - UserVaddr(image)) == LoadAddress(s, x)
  {
    var s := ImageTrace(data).segments[i];
    VaddrNotNegative(image, data);
    assert image.base <= s.PageStart() <= s.paddr && s.End() <= s.PageEnd() <= image.base + image.size;
  }

  /**
   End to end: after loading and mapping, a user read of any linked address gives the byte the file
   prescribes, or zero past its part of the segment, unless the stack, mapped last, covers the address.
   */
  lemma UserReadsImage(before: seq<Pte>, after: seq<Pte>, plan: Plan, regions: seq<Region>, first: nat, pts: nat,
                       image: LoadedImage, data: seq<byte>, memory: seq<byte>, stackStart: nat, i: nat, x: nat)
    requires Describes(image, data) && Uniform(ImageTrace(data).segments, image.vaddrDelta)
    requires InPlace(memory, data, ImageTrace(data).segments)
    requires AllWellFormed(ImageMappings(image, stackStart))
    requires OverKernel(before, after, plan, regions, first, pts, ImageMappings(image, stackStart))
    requires i < |ImageTrace(data).segments|
    requires var s := ImageTrace(data).segments[i]; s.vaddr <= x < s.vaddr + s.memsz
    ensures var s := ImageTrace(data).segments[i];
            var t := Walk(after, plan.base, plan.base, x);
            && t.Mapped? && t.user
            && if InStack(x) then t.pa == stackStart + (x - USER_STACK_VA) && t.writable
               else && t.pa == LoadAddress(s, x) && !t.writable && s.Contains(t.pa)
                    && t.pa < |memory| && memory[t.pa] == SegmentByte(data, s, t.pa)
  {
    var s := ImageTrace(data).segments[i];
    var mappings := ImageMappings(image, stackStart);
    ImageAddress(image, data, i, x);
    assert mappings[0].WellFormed();
    UserReach(before, after, plan, regions, first, pts, mappings, x);
    assert LastHolder(mappings, if InStack(x) then 1 else 0, x);
    assert ByteInPlace(memory, data, s, LoadAddress(s, x));
  }

  /** The checked entry point is reachable in user mode; outside the stack it reads the image. */
  lemma EntryReachable(before: seq<Pte>, after: seq<Pte>, plan: Plan, regions: seq<Region>, first: nat, pts: nat,
                       image: LoadedImage, data: seq<byte>, memory: seq<byte>, stackStart: nat)
    requires Describes(image, data) && Uniform(ImageTrace(data).segments, image.vaddrDelta)
    requires InPlace(memory, data, ImageTrace(data).segments)
    requires AllWellFormed(ImageMappings(image, stackStart))
    requires OverKernel(before, after, plan, regions, first, pts, ImageMappings(image, stackStart))
    ensures var t := Walk(after, plan.base, plan.base, image.entry);
            && t.Mapped? && t.user
            && (!InStack(image.entry) ==>
                  exists i :: 0 <= i < |ImageTrace(data).segments| && ImageTrace(data).segments[i].IsExecutable()
                              && ImageTrace(data).segments[i].Contains(t.pa))
  {
    var all := ImageTrace(data).segments;
    var i :| 0 <= i < |all| && EntryHere(all[i], image.entry);
    UserReadsImage(before, after, plan, regions, first, pts, image, data, memory, stackStart, i, image.entry);
  }

  // ----- the whole way -----

  /** What a load at `va` returns in user mode, if it does not fault. */
  ghost function UserLoad(entries: seq<Pte>, base: nat, memory: seq<byte>, va: nat): Option<byte> {
    var t := Walk(entries, base, base, va);
    if t.Mapped? && t.user && t.pa < |memory| then Some(memory[t.pa]) else None
  }

  /** User mode sees the file: every linked address outside the stack reads as the segment prescribes. */
  ghost predicate Sees(entries: seq<Pte>, base: nat, memory: seq<byte>, data: seq<byte>, segments: seq<Segment>)
    requires Sound(data, segments)
  {
    forall i: nat, x: nat :: i < |segments| && SeesByte(segments[i], x) && !InStack(x) ==>
                             UserLoad(entries, base, memory, x)
                             == Some(SegmentByte(data, segments[i], LoadAddress(segments[i], x)))
  }

  predicate SeesByte(s: Segment, x: nat) { s.vaddr <= x < s.vaddr + s.memsz }

  /** A loaded image with its memory, as the boot loader hands it over. */
  ghost predicate HandedOver(image: LoadedImage, data: seq<byte>, memory: seq<byte>) {
    && Describes(image, data) && Uniform(ImageTrace(data).segments, image.vaddrDelta)
    && InPlace(memory, data, ImageTrace(data).segments) && image.base + image.size <= PHYS_LIMIT
  }

  /** The user region of the image and its stack is attached over the kernel's tables. */
  ghost predicate Installed(before: seq<Pte>, after: seq<Pte>, plan: Plan, regions: seq<Region>, first: nat,
                            image: LoadedImage, stackStart: nat)
  {
    && AllWellFormed(ImageMappings(image, stackStart))
    && exists pts :: OverKernel(before, after, plan, regions, first, pts, ImageMappings(image, stackStart))
  }

  lemma SeesInstalled(before: seq<Pte>, after: seq<Pte>, plan: Plan, regions: seq<Region>, first: nat,
                      image: LoadedImage, data: seq<byte>, memory: seq<byte>, stackStart: nat)
    requires HandedOver(image, data, memory) && Installed(before, after, plan, regions, first, image, stackStart)
    ensures Sees(after, plan.base, memory, data, ImageTrace(data).segments)
  {
    var pts :| OverKernel(before, after, plan, regions, first, pts, ImageMappings(image, stackStart));
    SeesImage(before, after, plan, regions, first, pts, image, data, memory, stackStart);
  }

  lemma SeesImage(before: seq<Pte>, after: seq<Pte>, plan: Plan, regions: seq<Region>, first: nat, pts: nat,
                  image: LoadedImage, data: seq<byte>, memory: seq<byte>, stackStart: nat)
    requires Describes(image, data) && Uniform(ImageTrace(data).segments, image.vaddrDelta)
    requires InPlace(memory, data, ImageTrace(data).segments)
    requires AllWellFormed(ImageMappings(image, stackStart))
    requires OverKernel(before, after, plan, regions, first, pts, ImageMappings(image, stackStart))
    ensures Sees(after, plan.base, memory, data, ImageTrace(data).segments)
  {
    var all := ImageTrace(data).segments;
    forall i: nat, x: nat | i < |all| && SeesByte(all[i], x) && !InStack(x)
      ensures UserLoad(after, plan.base, memory, x) == Some(SegmentByte(data, all[i], LoadAddress(all[i], x)))
    {
      UserReadsImage(before, after, plan, regions, first, pts, image, data, memory, stackStart, i, x);
    }
  }

  // ----- what user mode can reach -----

  /** An access at `va` in user mode goes to physical address `pa`. */
  ghost predicate ReachesAt(entries: seq<Pte>, base: nat, va: nat, pa: nat) {
    var t := Walk(entries, base, base, va);
    va < VA_LIMIT && t.Mapped? && t.user && t.pa == pa
  }

  ghost predicate UserReaches(entries: seq<Pte>, base: nat, pa: nat) {
    exists va: nat :: ReachesAt(entries, base, va, pa)
  }

  predicate InHull(image: LoadedImage, pa: nat) { image.base <= pa < image.base + image.size }

  predicate InFrames(stackStart: nat, pa: nat) { stackStart <= pa < stackStart + USER_STACK_PAGES * PAGE_SIZE }

  /** User mode reads the image's hull and writes its stack, and reaches nothing else. */
  lemma ReachesOnly(before: seq<Pte>, after: seq<Pte>, plan: Plan, regions: seq<Region>, first: nat,
                    image: LoadedImage, stackStart: nat, va: nat, pa: nat)
    requires Installed(before, after, plan, regions, first, image, stackStart) && ReachesAt(after, plan.base, va, pa)
    ensures if InStack(va) then InFrames(stackStart, pa)
            else InHull(image, pa) && va == UserVaddr(image) + (pa - image.base)
    ensures Walk(after, plan.base, plan.base, va).writable <==> InStack(va)
  {
    var mappings := ImageMappings(image, stackStart);
    var pts :| OverKernel(before, after, plan, regions, first, pts, mappings);
    UserReach(before, after, plan, regions, first, pts, mappings, va);
    assert LastHolder(mappings, if InStack(va) then 1 else 0, va);
  }

  /** A byte of the hull whose page in the user region the stack, mapped last, does not cover. */
  predicate Exposed(image: LoadedImage, pa: nat) {
    InHull(image, pa) && !InStack(UserVaddr(image) + (pa - image.base))
  }

  /** What user mode reaches, exactly: the stack's frames, and the hull but for what the stack hides. */
  lemma ReachesIff(before: seq<Pte>, after: seq<Pte>, plan: Plan, regions: seq<Region>, first: nat,
                   image: LoadedImage, stackStart: nat, pa: nat)
    requires Installed(before, after, plan, regions, first, image, stackStart)
    ensures UserReaches(after, plan.base, pa) <==> InFrames(stackStart, pa) || Exposed(image, pa)
  {
    var mappings := ImageMappings(image, stackStart);
    var pts :| OverKernel(before, after, plan, regions, first, pts, mappings);
    if InFrames(stackStart, pa) || Exposed(image, pa) {
      var i := if InFrames(stackStart, pa) then 1 else 0;
      var va := mappings[i].vaddr + (pa - mappings[i].paddr);
      assert mappings[i].WellFormed() && LastHolder(mappings, i, va);
      UserReach(before, after, plan, regions, first, pts, mappings, va);
      assert ReachesAt(after, plan.base, va, pa);
    }
    if va: nat :| ReachesAt(after, plan.base, va, pa) {
      ReachesOnly(before, after, plan, regions, first, image, stackStart, va, pa);
    }
  }
}

/** What user mode reaches of physical memory, and what of that the kernel uses. */
module Isolation {
  import opened Bitmap
  import opened BootMemory
  import opened FrameAllocator
  import opened Image
  import opened LittleEndian
  import opened Loader
  import opened MemoryMap
  import opened Mmu
  import opened PageEntries
  import opened PagingModel
  import opened UserMapModel
  import opened UserSpace

  /** Each image got all the pages it needs, and none is the other's. */
  ghost predicate OwnPages(kernel: seq<Segment>, user: seq<Segment>, kernelPages: seq<nat>, userPages: seq<nat>) {
    && (forall p: nat :: Needed(kernel, p) ==> p in kernelPages)
    && (forall p: nat :: Needed(user, p) ==> p in userPages)
    && forall p :: p in kernelPages ==> p !in userPages
  }

  lemma PageNeeded(segments: seq<Segment>, i: nat, a: nat)
    requires i < |segments|
    ensures segments[i].Contains(a) ==> Needed(segments, a / PAGE_SIZE * PAGE_SIZE)
  {
    if segments[i].Contains(a) {
      PageInside(segments[i], a);
    }
  }

  // ----- the exact reach -----

  /** User mode reaches its stack's frames and the exposed part of its image's hull, and no other byte. */
  ghost predicate Reach(entries: seq<Pte>, base: nat, image: LoadedImage, stackStart: nat) {
    forall pa: nat :: UserReaches(entries, base, pa) <==> InFrames(stackStart, pa) || Exposed(image, pa)
  }

  lemma ReachExact(before: seq<Pte>, after: seq<Pte>, plan: Plan, regions: seq<Region>, first: nat,
                   image: LoadedImage, stackStart: nat)
    requires Installed(before, after, plan, regions, first, image, stackStart)
    ensures Reach(after, plan.base, image, stackStart)
  {
    forall pa: nat
      ensures UserReaches(after, plan.base, pa) <==> InFrames(stackStart, pa) || Exposed(image, pa)
    {
      ReachesIff(before, after, plan, regions, first, image, stackStart, pa);
    }
  }

  // ----- what the kernel owns -----

  /** The user stack's frames touch nothing the kernel owns. */
  ghost predicate StackClear(reserved: seq<ReservedRange>, stackStart: nat) {
    && stackStart + USER_STACK_PAGES * PAGE_SIZE <= MAX_IDENTITY_BYTES
    && forall pa: nat :: InFrames(stackStart, pa) ==> !TouchesReserved(reserved, pa / PAGE_SIZE * PAGE_SIZE)
  }

  /** Of what the kernel owns, user mode reaches exactly what is exposed in the hull of its image. */
  ghost predicate Isolated(entries: seq<Pte>, base: nat, image: LoadedImage, info: BootInfo, arena: PhysRange,
                           bitmap: PhysRange)
  {
    forall pa: nat :: Owns(info, arena, bitmap, pa) ==> (UserReaches(entries, base, pa) <==> Exposed(image, pa))
  }

  lemma OwnedIsolated(entries: seq<Pte>, base: nat, image: LoadedImage, stackStart: nat, info: BootInfo,
                      arena: PhysRange, bitmap: PhysRange)
    requires Reach(entries, base, image, stackStart) && InfoOk(info, bitmap) && arena.start < U64_LIMIT
    requires StackClear(OwnedRanges(info, arena, bitmap), stackStart)
    ensures Isolated(entries, base, image, info, arena, bitmap)
  {
    forall pa: nat | Owns(info, arena, bitmap, pa) ensures !InFrames(stackStart, pa) {
      if pa < MAX_IDENTITY_BYTES {
        OwnedKept(info, arena, bitmap, pa);
      }
    }
  }

  /** No byte of the kernel image can be reached in user mode. */
  ghost predicate KernelHidden(entries: seq<Pte>, base: nat, kernel: seq<Segment>) {
    forall i: nat, a: nat :: i < |kernel| && kernel[i].Contains(a) ==> !UserReaches(entries, base, a)
  }

  /** Exactly when: none is exposed, so each that lies in the user's hull is hidden by the stack. */
  lemma HiddenIff(entries: seq<Pte>, base: nat, image: LoadedImage, kernel: seq<Segment>, info: BootInfo,
                  arena: PhysRange, bitmap: PhysRange)
    requires Isolated(entries, base, image, info, arena, bitmap)
    requires IsSpan(kernel, info.kernelBase, info.kernelBase + info.kernelSize)
    ensures KernelHidden(entries, base, kernel) <==>
            forall i: nat, a: nat :: i < |kernel| && kernel[i].Contains(a) ==> !Exposed(image, a)
  {
    forall i: nat, a: nat | i < |kernel| && kernel[i].Contains(a)
      ensures UserReaches(entries, base, a) <==> Exposed(image, a)
    {
      assert kernel[i].PageStart() <= a < kernel[i].PageEnd();
      assert Owns(info, arena, bitmap, a);
    }
  }

  /** Every page of the hull belongs to a segment. */
  ghost predicate NoGaps(image: LoadedImage, segments: seq<Segment>) {
    forall p: nat :: p % PAGE_SIZE == 0 && InHull(image, p) ==> Needed(segments, p)
  }

  lemma PageOfHull(segments: seq<Segment>, image: LoadedImage, a: nat)
    requires IsSpan(segments, image.base, image.base + image.size) && NoGaps(image, segments)
    ensures InHull(image, a) ==> Needed(segments, a / PAGE_SIZE * PAGE_SIZE)
  {
    var k :| 0 <= k < |segments| && segments[k].PageStart() == image.base;
    if InHull(image, a) {
      var p := a / PAGE_SIZE * PAGE_SIZE;
      PageBelow(segments[k], image, a, p);
    }
  }

  lemma PageBelow(s: Segment, image: LoadedImage, a: nat, p: nat)
    requires s.PageStart() == image.base && InHull(image, a) && p == a / PAGE_SIZE * PAGE_SIZE
    ensures p % PAGE_SIZE == 0 && InHull(image, p)
  {
  }

  /** A hull without gaps holds no byte of the other image, which is then hidden. */
  lemma NoGapsHide(entries: seq<Pte>, base: nat, kernel: seq<Segment>, user: seq<Segment>, kernelPages: seq<nat>,
                   userPages: seq<nat>, image: LoadedImage, info: BootInfo, arena: PhysRange, bitmap: PhysRange)
    requires OwnPages(kernel, user, kernelPages, userPages) && NoGaps(image, user)
    requires IsSpan(user, image.base, image.base + image.size)
    requires IsSpan(kernel, info.kernelBase, info.kernelBase + info.kernelSize)
    requires Isolated(entries, base, image, info, arena, bitmap)
    ensures KernelHidden(entries, base, kernel)
  {
    HiddenIff(entries, base, image, kernel, info, arena, bitmap);
    forall i: nat, a: nat | i < |kernel| && kernel[i].Contains(a) ensures !InHull(image, a) {
      PageNeeded(kernel, i, a);
      PageOfHull(user, image, a);
    }
  }

  // ----- frames: the heap and the threads' stacks -----

  predicate FrameByte(a: FrameAllocator, i: nat, pa: nat) { a.Address(i) <= pa < a.Address(i) + PAGE_SIZE }

  /** Of some frames, user mode reaches none but those of its stack. */
  ghost predicate FramesHidden(entries: seq<Pte>, base: nat, a: FrameAllocator, which: set<nat>, stackStart: nat) {
    forall i: nat, pa: nat :: i in which && FrameByte(a, i, pa) && !InFrames(stackStart, pa) ==>
                              !UserReaches(entries, base, pa)
  }

  /** Whatever frames are meant, issued or yet to be: exactly if none of their other bytes is exposed. */
  lemma FramesHiddenIff(entries: seq<Pte>, base: nat, image: LoadedImage, stackStart: nat, a: FrameAllocator,
                        which: set<nat>)
    requires Reach(entries, base, image, stackStart)
    ensures FramesHidden(entries, base, a, which, stackStart) <==>
            forall i: nat, pa: nat :: i in which && FrameByte(a, i, pa) && !InFrames(stackStart, pa) ==>
                                      !Exposed(image, pa)
  {
    forall i: nat, pa: nat | i in which && FrameByte(a, i, pa) && !InFrames(stackStart, pa)
      ensures UserReaches(entries, base, pa) <==> Exposed(image, pa)
    {
    }
  }

  /** Every frame the allocator may ever hand out. */
  ghost function MayIssue(a: FrameAllocator): set<nat>
    requires a.Shape()
    reads a.allocatable
  {
    var bits := Bits(a.allocatable[..], a.frames);
    set i: nat | i < a.frames && bits[i]
  }

  /** The memory map lists no page of the image as conventional memory. */
  ghost predicate MapAvoids(regions: seq<Region>, segments: seq<Segment>) {
    forall k: nat, frame: nat :: k < |regions| && Holds(regions[k], frame) ==> !Needed(segments, frame * PAGE_SIZE)
  }

  /** With such a map and a hull without gaps no frame is exposed. */
  lemma MapHides(entries: seq<Pte>, base: nat, image: LoadedImage, stackStart: nat, a: FrameAllocator,
                 regions: seq<Region>, user: seq<Segment>)
    requires Reach(entries, base, image, stackStart) && a.Shape() && AllUsable(a, regions)
    requires NoGaps(image, user) && IsSpan(user, image.base, image.base + image.size) && MapAvoids(regions, user)
    ensures FramesHidden(entries, base, a, MayIssue(a), stackStart)
  {
    FramesHiddenIff(entries, base, image, stackStart, a, MayIssue(a));
    forall i: nat, pa: nat | i in MayIssue(a) && FrameByte(a, i, pa) && !InFrames(stackStart, pa)
      ensures !Exposed(image, pa)
    {
      PageOfHull(user, image, pa);
      PageOfFrame(a, i, pa);
      assert Usable(regions, |regions|, a.reserved, a.firstFrame + i);
    }
  }

  lemma PageOfFrame(a: FrameAllocator, i: nat, pa: nat)
    requires FrameByte(a, i, pa)
    ensures pa / PAGE_SIZE * PAGE_SIZE == (a.firstFrame + i) * PAGE_SIZE
  {
  }

  // ----- a hull with a gap -----

  /** Two user segments a page long, two MiB apart, and a kernel segment between them. */
  const GapUser: seq<Segment> :=
    [Segment(0, 0x10_0000, USER_BASE, 0, PAGE_SIZE, 5),
     Segment(0, 0x30_0000, USER_BASE + 0x20_0000, 0, PAGE_SIZE, 5)]

  const GapKernel: seq<Segment> := [Segment(0, 0x20_0000, 0x20_0000, 0, PAGE_SIZE, 5)]

  const GapImage: LoadedImage := LoadedImage(0x10_0000, 0x20_1000, USER_BASE, 2, USER_BASE - 0x10_0000)

  /** The images share no page, and yet the kernel's byte is exposed and the user's second segment is not. */
  lemma GapExposes()
    ensures Uniform(GapUser, GapImage.vaddrDelta) && IsSpan(GapUser, GapImage.base, GapImage.base + GapImage.size)
    ensures OwnPages(GapKernel, GapUser, [0x20_0000], [0x10_0000, 0x30_0000]) && !NoGaps(GapImage, GapUser)
    ensures GapKernel[0].Contains(0x20_0000) && Exposed(GapImage, 0x20_0000)
    ensures GapUser[1].Contains(0x30_0000) && GapUser[1].vaddr == USER_STACK_VA && !Exposed(GapImage, 0x30_0000)
  {
    assert GapUser[0].PageStart() == GapImage.base && GapUser[1].PageEnd() == GapImage.base + GapImage.size;
    assert InHull(GapImage, 0x20_0000) && !Needed(GapUser, 0x20_0000);
  }

  /** So over any tables: user mode reads the kernel's page, and its stack where its second segment is linked. */
  lemma GapReached(before: seq<Pte>, after: seq<Pte>, plan: Plan, regions: seq<Region>, first: nat, stackStart: nat)
    requires Installed(before, after, plan, regions, first, GapImage, stackStart)
    ensures UserReaches(after, plan.base, 0x20_0000) && !KernelHidden(after, plan.base, GapKernel)
    ensures Walk(after, plan.base, plan.base, USER_STACK_VA) == Mapped(stackStart, true, true)
  {
    GapExposes();
    ReachExact(before, after, plan, regions, first, GapImage, stackStart);
    var mappings := ImageMappings(GapImage, stackStart);
    var pts :| OverKernel(before, after, plan, regions, first, pts, mappings);
    UserReach(before, after, plan, regions, first, pts, mappings, USER_STACK_VA);
    assert LastHolder(mappings, 1, USER_STACK_VA);
  }
}

/** The bitmap frame allocator: lowest address first, each frame 4 KiB. */
module FrameAllocator {
  import opened Bitmap
  import opened FrameModel
  import opened MemoryMap
  import opened Wrappers

  const MAX_RESERVED_RANGES: nat := 8

  /** A half-open physical interval. */
  datatype ReservedRange = ReservedRange(start: nat, end: nat) {
    predicate Overlaps(from: nat, to: nat) { start < to && from < end }
  }

  datatype PhysRange = PhysRange(start: nat, len: nat)

  datatype FreeError = NotManaged(address: nat) | AlreadyFree(address: nat) | InReserved(address: nat)

  predicate TouchesReserved(reserved: seq<ReservedRange>, address: nat) {
    exists i :: 0 <= i < |reserved| && reserved[i].Overlaps(address, address + PAGE_SIZE)
  }

  /** Bits past the managed frames are never touched. */
  ghost predicate SameTail(a: seq<bv8>, b: seq<bv8>, n: nat) {
    |a| == |b| && forall j :: n <= j < 8 * |a| ==> BitAt(a, j) == BitAt(b, j)
  }

  class FrameAllocator {
    const allocatable: array<bv8>
    const used: array<bv8>
    const firstFrame: nat
    const frames: nat
    const reserved: seq<ReservedRange>
    var freeFrames: nat

    ghost predicate Shape()
    {
      allocatable != used && frames <= 8 * allocatable.Length && frames <= 8 * used.Length
    }

    ghost function Model(): Frames
      requires Shape()
      reads allocatable, used
    {
      Frames(Bits(allocatable[..], frames), Bits(used[..], frames))
    }

    /** The counter is the number of free frames, and no reserved frame can be handed out. */
    ghost predicate Valid()
      reads this, allocatable, used
    {
      && Shape()
      && freeFrames == FreeCount(Model(), frames)
      && (forall i :: 0 <= i < frames && Model().allocatable[i] ==> !TouchesReserved(reserved, Address(i)))
    }

    /** Safe by default: no frame may be handed out and none counts as free. */
    constructor (firstFrame: nat, frames: nat, reserved: seq<ReservedRange>)
      ensures Valid() && fresh(allocatable) && fresh(used)
      ensures this.firstFrame == firstFrame && this.frames == frames && this.reserved == reserved && freeFrames == 0
      ensures forall i :: 0 <= i < frames ==> !Model().allocatable[i] && Model().used[i]
    {
      var half := (frames + 7) / 8;
      allocatable := new bv8[half](i => 0);
      used := new bv8[half](i => 0xFF);
      this.firstFrame, this.frames, this.reserved, freeFrames := firstFrame, frames, reserved, 0;
      new;
      forall i | 0 <= i < frames
        ensures !Model().allocatable[i] && Model().used[i]
      {
        BitsAt(allocatable[..], frames, i);
        BitsAt(used[..], frames, i);
      }
      NoneFree(Model(), frames);
    }

    function Address(i: nat): nat { (firstFrame + i) * PAGE_SIZE }

    function FrameIndex(address: nat): (r: Option<nat>)
      ensures r.Some? <==> exists i :: 0 <= i < frames && Address(i) == address
      ensures r.Some? ==> r.value < frames && Address(r.value) == address
    {
      var frame := address / PAGE_SIZE;
      if address % PAGE_SIZE != 0 || frame < firstFrame || frame >= firstFrame + frames then
        assert forall i :: 0 <= i < frames ==> Address(i) / PAGE_SIZE == firstFrame + i && Address(i) % PAGE_SIZE == 0;
        None
      else
        assert Address(frame - firstFrame) == address;
        Some(frame - firstFrame)
    }

    method FrameFree(i: nat) returns (free: bool)
      requires Shape() && i < frames
      ensures free == IsFree(Model(), i)
    {
      BitsAt(allocatable[..], frames, i);
      BitsAt(used[..], frames, i);
      free := BitAt(allocatable[..], i) && !BitAt(used[..], i);
    }

    /** The lowest run of `count` free frames; nothing exactly when there is none. */
    method FindFreeRun(count: nat) returns (r: Option<nat>)
      requires Shape()
      ensures count == 0 ==> r.None?
      ensures 0 < count ==> r == FirstRun(Model(), count, 0)
    {
      ghost var f := Model();
      if count == 0 || count > frames {
        return None;
      }
      var runStart, run := 0, 0;
      for index := 0 to frames
        invariant run < count && run <= index && (0 < run ==> runStart + run == index)
        invariant FreeRun(f, index - run, run)
        invariant run < index ==> !IsFree(f, index - run - 1)
        invariant forall s :: 0 <= s && s + count <= index ==> !FreeRun(f, s, count)
      {
        var free := FrameFree(index);
        if !free {
          run := 0;
          continue;
        }
        if run == 0 {
          runStart := index;
        }
        run := run + 1;
        if run == count {
          FirstRunIs(f, count, runStart);
          return Some(runStart);
        }
      }
      FirstRunIs(f, count, frames - count + 1);
      return None;
    }

    /** Flips the used bit of an allocatable frame and keeps the count. */
    method SetUsed(i: nat, value: bool)
      requires Valid() && i < frames && Model().allocatable[i] && Model().used[i] != value
      modifies this, used
      ensures Valid() && Model() == old(Model()).(used := old(Model()).used[i := value])
      ensures SameTail(used[..], old(used[..]), frames)
    {
      FlipCount(Model(), i, frames);
      SetBit(used, i, value, frames);
      freeFrames := if value then freeFrames - 1 else freeFrames + 1;
    }

    /**
     Adds a managed frame to the allocatable set, free, and counts it.  The allocator stays valid if and
     only if the frame was not free before, when it would be counted twice, and is not reserved.
     */
    method MarkAvailable(address: nat)
      requires Valid()
      modifies this, allocatable, used
      ensures match FrameIndex(address)
              case None => Model() == old(Model()) && freeFrames == old(freeFrames)
              case Some(i) => Model() == Frames(old(Model()).allocatable[i := true], old(Model()).used[i := false])
                              && freeFrames == old(freeFrames) + 1
      ensures Valid() <==> FrameIndex(address).None?
                           || (!IsFree(old(Model()), FrameIndex(address).value) && !TouchesReserved(reserved, address))
    {
      var index := FrameIndex(address);
      if index.None? {
        return;
      }
      MarkedCount(Model(), index.value, frames);
      SetBit(allocatable, index.value, true, frames);
      SetBit(used, index.value, false, frames);
      freeFrames := freeFrames + 1;
      assert Model().allocatable[index.value];
    }

    /** Lowest run first; the run becomes issued and nothing else changes. */
    method Take(count: nat) returns (r: Option<PhysRange>)
      requires Valid()
      modifies this, used
      ensures Valid() && SameTail(used[..], old(used[..]), frames)
      ensures var (f, s) := AllocContiguous(old(Model()), count);
              Model() == f && r == if s.Some? then Some(PhysRange(Address(s.value), count * PAGE_SIZE)) else None
    {
      ghost var f := Model();
      var start := FindFreeRun(count);
      if start.None? {
        return None;
      }
      MarkNothing(f, start.value, true);
      for i := 0 to count
        invariant Valid() && SameTail(used[..], old(used[..]), frames)
        invariant Model() == Mark(f, start.value, i, true)
      {
        assert IsFree(f, start.value + i);
        MarkAt(f, start.value, i, true, start.value + i);
        MarkExtend(f, start.value, i, true);
        SetUsed(start.value + i, true);
      }
      return Some(PhysRange(Address(start.value), count * PAGE_SIZE));
    }

    /** Succeeds exactly on issued frames; says of any other whether it is reserved, free, or not the allocator's. */
    method Free(address: nat) returns (r: Result<Unit, FreeError>)
      requires Valid()
      modifies this, used
      ensures Valid() && SameTail(used[..], old(used[..]), frames)
      ensures r.Ok? <==> exists i :: 0 <= i < frames && Address(i) == address && IsIssued(old(Model()), i)
      ensures r.Ok? ==> exists i :: 0 <= i < frames && Address(i) == address
                                    && Model() == old(Model()).(used := old(Model()).used[i := false])
      ensures r.Err? ==> Model() == old(Model())
      ensures r.Err? ==> r.error in {NotManaged(address), InReserved(address), AlreadyFree(address)}
      ensures r == Err(InReserved(address)) <==> FrameIndex(address).Some? && TouchesReserved(reserved, address)
      ensures r == Err(AlreadyFree(address)) <==>
              FrameIndex(address).Some? && IsFree(old(Model()), FrameIndex(address).value)
    {
      var index := FrameIndex(address);
      if index.None? {
        return Err(NotManaged(address));
      }
      var i := index.value;
      if TouchesReserved(reserved, address) {
        return Err(InReserved(address));
      }
      BitsAt(allocatable[..], frames, i);
      BitsAt(used[..], frames, i);
      if !BitAt(allocatable[..], i) {
        return Err(NotManaged(address));
      }
      if !BitAt(used[..], i) {
        return Err(AlreadyFree(address));
      }
      SetUsed(i, false);
      return Ok(Unit);
    }

    /** One frame, the lowest free one. */
    method Alloc() returns (r: Option<nat>)
      requires Valid()
      modifies this, used
      ensures Valid()
      ensures var (f, s) := AllocContiguous(old(Model()), 1);
              Model() == f && r == if s.Some? then Some(Address(s.value)) else None
    {
      var i := FindFreeRun(1);
      if i.None? {
        return None;
      }
      assert IsFree(Model(), i.value);
      MarkOne(Model(), i.value, true);
      SetUsed(i.value, true);
      return Some(Address(i.value));
    }

    /** The lowest free frame that lies, even partly, between `start` and `end`. */
    method FirstFreeIn(start: nat, end: nat) returns (r: Option<nat>)
      requires Shape()
      ensures r.Some? ==> exists i :: 0 <= i < frames && Address(i) == r.value && IsFree(Model(), i)
                                      && start < r.value + PAGE_SIZE && r.value < end
      ensures forall i :: 0 <= i < frames && IsFree(Model(), i)
                          && start < Address(i) + PAGE_SIZE && Address(i) < end ==>
                          r.Some? && r.value <= Address(i)
    {
      var first, last := start / PAGE_SIZE, (end + PAGE_SIZE - 1) / PAGE_SIZE;
      var frame := first;
      while frame < last
        invariant first <= frame
        invariant forall i :: 0 <= i < frames && IsFree(Model(), i) ==>
                              !(first <= firstFrame + i < frame)
      {
        var index := FrameIndex(frame * PAGE_SIZE);
        if index.Some? {
          var free := FrameFree(index.value);
          if free {
            return Some(frame * PAGE_SIZE);
          }
        }
        frame := frame + 1;
      }
      return None;
    }

    /** The managed frames of a range that begins inside the window. */
    ghost function RunOf(range: PhysRange): Run {
      Run(if range.start < Address(0) then 0 else range.start / PAGE_SIZE - firstFrame, range.len / PAGE_SIZE)
    }

    /** The range is whole frames, all of them issued. */
    ghost predicate IsOut(f: Frames, range: PhysRange) {
      && range == PhysRange(Address(RunOf(range).start), RunOf(range).count * PAGE_SIZE)
      && IssuedRun(f, RunOf(range).start, RunOf(range).count)
    }

    /** Frame `i` is one of the first `n` of a range. */
    ghost predicate Among(range: PhysRange, n: nat, i: nat) {
      exists k :: 0 <= k < n && Address(i) == range.start + k * PAGE_SIZE
    }

    /** The address `n` frames into a range is that of an issued frame. */
    ghost predicate IssuedAt(f: Frames, range: PhysRange, n: nat) {
      exists i :: 0 <= i < frames && Address(i) == range.start + n * PAGE_SIZE && IsIssued(f, i)
    }

    /** `f'` is `f` with the first `n` frames of the range freed, all of which were issued. */
    ghost predicate FreedFirst(f: Frames, f': Frames, range: PhysRange, n: nat) {
      && |f.used| == |f'.used| == frames && f'.allocatable == f.allocatable
      && (forall i :: 0 <= i < frames ==> f'.used[i] == (f.used[i] && !Among(range, n, i)))
      && (forall k :: 0 <= k < n ==> IssuedAt(f, range, k))
    }

    lemma FreedNext(f: Frames, now: Frames, range: PhysRange, n: nat, i: nat)
      requires FreedFirst(f, now, range, n) && |f.allocatable| == frames
      requires i < frames && Address(i) == range.start + n * PAGE_SIZE && IsIssued(now, i)
      ensures FreedFirst(f, now.(used := now.used[i := false]), range, n + 1)
    {
      forall j | 0 <= j < frames
        ensures Among(range, n + 1, j) <==> Among(range, n, j) || j == i
      {
        if Among(range, n, j) {
          var k :| 0 <= k < n && Address(j) == range.start + k * PAGE_SIZE;
          assert 0 <= k < n + 1;
        } else if j == i {
          assert 0 <= n < n + 1 && Address(j) == range.start + n * PAGE_SIZE;
        }
      }
      assert IsIssued(f, i);
    }

    /** Gives back a range frame by frame, up to the first that is not issued. */
    method FreeFrames(range: PhysRange) returns (r: Result<Unit, FreeError>, ghost n: nat)
      requires Valid()
      modifies this, used
      ensures Valid() && SameTail(used[..], old(used[..]), frames)
      ensures FreedFirst(old(Model()), Model(), range, n)
      ensures if r.Ok? then range.len <= n * PAGE_SIZE < range.len + PAGE_SIZE
              else n * PAGE_SIZE < range.len && !IssuedAt(old(Model()), range, n)
    {
      var address := range.start;
      ghost var f := Model();
      n := 0;
      while address < range.start + range.len
        invariant Valid() && SameTail(used[..], old(used[..]), frames)
        invariant address == range.start + n * PAGE_SIZE && address < range.start + range.len + PAGE_SIZE
        invariant FreedFirst(f, Model(), range, n)
        decreases range.start + range.len - address
      {
        ghost var now := Model();
        StillIssued(f, now, range, n);
        var one := Free(address);
        if one.Err? {
          return Err(one.error), n;
        }
        ghost var i :| 0 <= i < frames && Address(i) == address && Model() == now.(used := now.used[i := false]);
        FreedNext(f, now, range, n, i);
        address := address + PAGE_SIZE;
        n := n + 1;
      }
      return Ok(Unit), n;
    }

    /** Freeing earlier frames of a range does not change whether the next one is issued. */
    lemma StillIssued(f: Frames, now: Frames, range: PhysRange, n: nat)
      requires FreedFirst(f, now, range, n)
      ensures IssuedAt(now, range, n) <==> IssuedAt(f, range, n)
    {
      if i :| 0 <= i < frames && Address(i) == range.start + n * PAGE_SIZE && IsIssued(f, i) {
        assert !Among(range, n, i);
        assert IsIssued(now, i);
      }
    }

    /** On a range that is out it never fails, and gives back exactly that range. */
    lemma WholeRange(f: Frames, f': Frames, range: PhysRange, ok: bool, n: nat)
      requires Shaped(f) && |f.used| == frames && IsOut(f, range) && FreedFirst(f, f', range, n)
      requires if ok then range.len <= n * PAGE_SIZE < range.len + PAGE_SIZE
               else n * PAGE_SIZE < range.len && !IssuedAt(f, range, n)
      ensures ok && f' == Release(f, RunOf(range).start, RunOf(range).count)
    {
      var s, count := RunOf(range).start, RunOf(range).count;
      forall k | 0 <= k < count
        ensures IssuedAt(f, range, k)
      {
        assert IsIssued(f, s + k) && Address(s + k) == range.start + k * PAGE_SIZE;
      }
      var g := Release(f, s, count);
      forall i: nat | i < frames
        ensures |g.used| == frames && g.used[i] == f'.used[i]
      {
        MarkAt(f, s, count, false, i);
        AmongRun(s, count, i);
      }
      assert g.used == f'.used;
    }

    lemma AmongRun(s: nat, count: nat, i: nat)
      ensures Among(PhysRange(Address(s), count * PAGE_SIZE), count, i) <==> s <= i < s + count
    {
      if s <= i < s + count {
        assert Address(i) == Address(s) + (i - s) * PAGE_SIZE;
      }
    }

    /** What was taken is out, and giving it back restores the frames. */
    lemma TakenRange(f: Frames, count: nat, range: PhysRange)
      requires Shaped(f) && |f.used| == frames && AllocContiguous(f, count).1.Some?
      requires range == PhysRange(Address(AllocContiguous(f, count).1.value), count * PAGE_SIZE)
      ensures var (taken, s) := AllocContiguous(f, count);
              && RunOf(range) == Run(s.value, count) && Shaped(taken) && |taken.used| == frames && IsOut(taken, range)
              && Release(taken, s.value, count) == f && FreeRun(f, s.value, count) && 0 < count
    {
      AllocMoves(f, count);
      ReleaseUndoesAlloc(f, count);
    }

    /** The probe the kernel makes at boot: what was taken goes back, and not one byte has changed. */
    method TakeAndGiveBack(count: nat) returns (r: Option<Result<Unit, FreeError>>)
      requires Valid()
      modifies this, used
      ensures Valid() && used[..] == old(used[..]) && freeFrames == old(freeFrames)
      ensures r.Some? ==> r.value.Ok?
      ensures r.Some? <==> 0 < count && exists s :: FreeRun(old(Model()), s, count)
    {
      ghost var f := Model();
      var range := Take(count);
      if range.None? {
        Untouched(old(used[..]), used[..], frames);
        return None;
      }
      TakenRange(f, count, range.value);
      ghost var taken := Model();
      var given, n := FreeFrames(range.value);
      WholeRange(taken, Model(), range.value, given.Ok?, n);
      Untouched(old(used[..]), used[..], frames);
      return Some(given);
    }
  }

  datatype InitError =
    | TooManyReservedRanges(count: nat)
    | EmptyRange(managedStart: nat, limit: nat)
    | BitmapTooSmall(needed: nat, got: nat)
    | NoUsableMemory

  /** What the UEFI specification, section 7.2, promises of conventional memory. */
  ghost predicate WellFormedMap(regions: seq<Region>) {
    && (forall i :: 0 <= i < |regions| && regions[i].kind.Conventional? ==> regions[i].base % PAGE_SIZE == 0)
    && (forall i, j :: 0 <= i < j < |regions| && regions[i].kind.Conventional? && regions[j].kind.Conventional? ==>
                       !regions[i].Overlaps(regions[j].base, regions[j].End()))
  }

  /** The frame lies wholly inside the conventional region. */
  ghost predicate Holds(region: Region, frame: nat) {
    region.kind.Conventional? && region.base <= frame * PAGE_SIZE && (frame + 1) * PAGE_SIZE <= region.End()
  }

  /** The frame lies inside one of the first `n` conventional regions and touches no reserved range. */
  ghost predicate Usable(regions: seq<Region>, n: nat, reserved: seq<ReservedRange>, frame: nat) {
    && !TouchesReserved(reserved, frame * PAGE_SIZE)
    && exists i :: 0 <= i < n && i < |regions| && Holds(regions[i], frame)
  }

  ghost predicate ConventionalByte(regions: seq<Region>, x: nat) {
    exists i :: 0 <= i < |regions| && regions[i].kind.Conventional? && regions[i].base <= x < regions[i].End()
  }

  predicate InFrame(frame: nat, x: nat) { frame * PAGE_SIZE <= x < (frame + 1) * PAGE_SIZE }

  /** Some byte of the range lies in the frame, or a range without bytes lies across it. */
  ghost predicate ReservesIn(r: ReservedRange, frame: nat) {
    || (exists x: nat :: InFrame(frame, x) && r.start <= x < r.end)
    || (r.end <= r.start && frame * PAGE_SIZE < r.end && r.start < (frame + 1) * PAGE_SIZE)
  }

  lemma ReservesIff(r: ReservedRange, frame: nat)
    ensures ReservesIn(r, frame) <==> r.Overlaps(frame * PAGE_SIZE, frame * PAGE_SIZE + PAGE_SIZE)
  {
    var lo := frame * PAGE_SIZE;
    if r.Overlaps(lo, lo + PAGE_SIZE) && r.start < r.end {
      var x := if r.start < lo then lo else r.start;
      assert InFrame(frame, x) && r.start <= x < r.end;
    }
  }

  /** By bytes: a usable frame is conventional memory throughout, and nothing is reserved in it. */
  lemma UsableIff(regions: seq<Region>, reserved: seq<ReservedRange>, frame: nat)
    requires WellFormedMap(regions)
    ensures Usable(regions, |regions|, reserved, frame) <==>
            && (forall x: nat :: InFrame(frame, x) ==> ConventionalByte(regions, x))
            && (forall i :: 0 <= i < |reserved| ==> !ReservesIn(reserved[i], frame))
  {
    forall i | 0 <= i < |reserved|
      ensures ReservesIn(reserved[i], frame) <==> reserved[i].Overlaps(frame * PAGE_SIZE, frame * PAGE_SIZE + PAGE_SIZE)
    {
      ReservesIff(reserved[i], frame);
    }
    assert InFrame(frame, frame * PAGE_SIZE);
    if ConventionalByte(regions, frame * PAGE_SIZE) {
      var i :| && 0 <= i < |regions| && regions[i].kind.Conventional?
               && regions[i].base <= frame * PAGE_SIZE < regions[i].End();
      WholeFrames(regions[i], frame);
      assert Holds(regions[i], frame);
    }
    if i :| 0 <= i < |regions| && Holds(regions[i], frame) {
      forall x: nat | InFrame(frame, x) ensures ConventionalByte(regions, x) {
        assert regions[i].kind.Conventional? && regions[i].base <= x < regions[i].End();
      }
    }
  }

  lemma WholeFrames(region: Region, frame: nat)
    requires region.base % PAGE_SIZE == 0 && region.base <= frame * PAGE_SIZE < region.End()
    ensures (frame + 1) * PAGE_SIZE <= region.End()
  {
  }

  /** The allocatable bits are `Usable` up to region `n`, plus the frames below `next` of region `n`. */
  ghost predicate Swept(a: FrameAllocator, regions: seq<Region>, n: nat, next: nat)
    reads a.allocatable, a.used
  {
    && a.Shape()
    && (forall i :: 0 <= i < a.frames ==> a.Model().used[i] == !a.Model().allocatable[i])
    && (forall i :: 0 <= i < a.frames ==>
          (a.Model().allocatable[i] <==>
           Usable(regions, n, a.reserved, a.firstFrame + i)
           || (n < |regions| && a.firstFrame + i < next
               && Usable(regions, n + 1, a.reserved, a.firstFrame + i))))
  }

  lemma UsableNext(regions: seq<Region>, n: nat, reserved: seq<ReservedRange>, frame: nat)
    requires n < |regions|
    ensures Usable(regions, n + 1, reserved, frame) <==>
            || Usable(regions, n, reserved, frame)
            || (!TouchesReserved(reserved, frame * PAGE_SIZE) && Holds(regions[n], frame))
  {
  }

  /** No other conventional region holds a frame of region `n`. */
  lemma HeldOnce(regions: seq<Region>, n: nat, reserved: seq<ReservedRange>, frame: nat)
    requires WellFormedMap(regions) && n < |regions| && Holds(regions[n], frame)
    ensures !Usable(regions, n, reserved, frame)
  {
    assert forall i :: 0 <= i < n && Holds(regions[i], frame) ==>
                       regions[i].Overlaps(regions[n].base, regions[n].End());
  }

  /** Marks one frame of region `n`, unless it is reserved. */
  method SweepFrame(a: FrameAllocator, regions: seq<Region>, n: nat, address: nat, ghost frame: nat)
    requires WellFormedMap(regions) && n < |regions| && Holds(regions[n], frame)
    requires address == frame * PAGE_SIZE && a.firstFrame <= frame < a.firstFrame + a.frames
    requires a.Valid() && Swept(a, regions, n, frame)
    modifies a, a.allocatable, a.used
    ensures a.Valid() && Swept(a, regions, n, frame + 1)
  {
    var skip := TouchesReserved(a.reserved, address);
    HeldOnce(regions, n, a.reserved, frame);
    UsableNext(regions, n, a.reserved, frame);
    if !skip {
      ManagedIndex(a, frame);
      a.MarkAvailable(address);
    }
  }

  lemma ManagedIndex(a: FrameAllocator, frame: nat)
    requires a.firstFrame <= frame < a.firstFrame + a.frames
    ensures a.FrameIndex(frame * PAGE_SIZE) == Some(frame - a.firstFrame)
  {
    assert a.Address(frame - a.firstFrame) == frame * PAGE_SIZE;
  }

  /** Marks the frames of one region that are in the window and not reserved. */
  method Sweep(a: FrameAllocator, regions: seq<Region>, n: nat, managedStart: nat, limit: nat)
    requires WellFormedMap(regions) && n < |regions|
    requires managedStart == a.Address(0) && limit == a.Address(a.frames)
    requires a.Valid() && Swept(a, regions, n, 0)
    modifies a, a.allocatable, a.used
    ensures a.Valid() && Swept(a, regions, n + 1, 0)
  {
    var region := regions[n];
    forall i | 0 <= i < a.frames
      ensures Usable(regions, n + 1, a.reserved, a.firstFrame + i) <==>
              Usable(regions, n, a.reserved, a.firstFrame + i)
              || (!TouchesReserved(a.reserved, a.Address(i)) && Holds(region, a.firstFrame + i))
    {
      UsableNext(regions, n, a.reserved, a.firstFrame + i);
    }
    if !region.kind.Conventional? {
      return;
    }
    var start := if region.base < managedStart then managedStart else region.base;
    var end := if region.End() < limit then region.End() else limit;
    var address := start;
    ghost var frame := start / PAGE_SIZE;
    while address < end
      invariant address == frame * PAGE_SIZE && start <= address
      invariant a.Valid() && Swept(a, regions, n, frame)
      decreases end - address
    {
      WholeFrame(region, frame, end);
      SweepFrame(a, regions, n, address, frame);
      address := address + PAGE_SIZE;
      frame := frame + 1;
    }
  }

  /** Regions are whole frames from an aligned base, so a frame that begins inside ends inside. */
  lemma WholeFrame(region: Region, frame: nat, end: nat)
    requires region.kind.Conventional? && region.base % PAGE_SIZE == 0 && region.base <= frame * PAGE_SIZE < end
    requires end <= region.End()
    ensures Holds(region, frame)
  {
  }

  /** A new allocator: exactly the usable frames of the window, all free. */
  ghost predicate Initial(a: FrameAllocator, regions: seq<Region>, reserved: seq<ReservedRange>, first: nat, end: nat)
    reads a, a.allocatable, a.used
  {
    && a.Valid() && a.firstFrame == first && first + a.frames == end && a.reserved == reserved && 0 < a.freeFrames
    && (forall i :: 0 <= i < a.frames ==>
                    (a.Model().allocatable[i] <==> Usable(regions, |regions|, reserved, first + i)))
    && Balanced(Ledger(a.Model(), {}))
  }

  /** Sweeps every region. */
  method Populate(a: FrameAllocator, regions: seq<Region>)
    requires WellFormedMap(regions) && a.Valid() && Swept(a, regions, 0, 0)
    modifies a, a.allocatable, a.used
    ensures a.Valid() && Swept(a, regions, |regions|, 0)
  {
    for n := 0 to |regions|
      invariant a.Valid() && Swept(a, regions, n, 0)
    {
      Sweep(a, regions, n, a.Address(0), a.Address(a.frames));
    }
  }

  /**
   Builds the allocator from the memory map: a frame may be handed out exactly when it lies wholly in
   conventional memory, inside the window, and touches no reserved range; at first all of them are free.
   Each error has its exact condition, in this order.
   */
  method Init(bitmapBytes: nat, regions: seq<Region>, reserved: seq<ReservedRange>, managedStart: nat, limit: nat)
    returns (r: Result<FrameAllocator, InitError>)
    requires WellFormedMap(regions)
    ensures var first, end := (managedStart + PAGE_SIZE - 1) / PAGE_SIZE, limit / PAGE_SIZE;
            if |reserved| > MAX_RESERVED_RANGES then r == Err(TooManyReservedRanges(|reserved|))
            else if end <= first then r == Err(EmptyRange(managedStart, limit))
            else if bitmapBytes < 2 * ((end - first + 7) / 8)
            then r == Err(BitmapTooSmall(2 * ((end - first + 7) / 8), bitmapBytes))
            else if forall frame :: first <= frame < end ==> !Usable(regions, |regions|, reserved, frame)
            then r == Err(NoUsableMemory)
            else r.Ok? && Initial(r.value, regions, reserved, first, end)
    ensures r.Ok? ==> fresh(r.value) && fresh(r.value.allocatable) && fresh(r.value.used)
  {
    if |reserved| > MAX_RESERVED_RANGES {
      return Err(TooManyReservedRanges(|reserved|));
    }
    var firstFrame, endFrame := (managedStart + PAGE_SIZE - 1) / PAGE_SIZE, limit / PAGE_SIZE;
    if endFrame <= firstFrame {
      return Err(EmptyRange(managedStart, limit));
    }
    var frames := endFrame - firstFrame;
    var half := (frames + 7) / 8;
    if bitmapBytes < 2 * half {
      return Err(BitmapTooSmall(2 * half, bitmapBytes));
    }
    var a := new FrameAllocator(firstFrame, frames, reserved);
    Populate(a, regions);
    CountDecides(a, regions);
    if a.freeFrames == 0 {
      return Err(NoUsableMemory);
    }
    return Ok(a);
  }

  /** After the sweep, the counter is zero exactly when no frame is usable, and nothing is issued. */
  lemma CountDecides(a: FrameAllocator, regions: seq<Region>)
    requires a.Valid() && Swept(a, regions, |regions|, 0)
    ensures a.freeFrames == 0 <==>
            forall frame :: a.firstFrame <= frame < a.firstFrame + a.frames ==>
                            !Usable(regions, |regions|, a.reserved, frame)
    ensures Balanced(Ledger(a.Model(), {}))
  {
    NothingOut(a.Model());
    if a.freeFrames == 0 {
      forall frame | a.firstFrame <= frame < a.firstFrame + a.frames
        ensures !Usable(regions, |regions|, a.reserved, frame)
      {
        CountZero(a.Model(), a.frames, frame - a.firstFrame);
      }
    } else if forall frame :: a.firstFrame <= frame < a.firstFrame + a.frames ==>
                              !Usable(regions, |regions|, a.reserved, frame) {
      forall i | 0 <= i < a.frames
        ensures !a.Model().allocatable[i]
      {
        assert !Usable(regions, |regions|, a.reserved, a.firstFrame + i);
      }
      NoneFree(a.Model(), a.frames);
    }
  }

  lemma {:induction false} CountZero(f: Frames, n: nat, i: nat)
    requires n <= |f.allocatable| && n <= |f.used| && FreeCount(f, n) == 0 && i < n
    ensures !IsFree(f, i)
  {
    if i == n - 1 {
    } else {
      CountZero(f, n - 1, i);
    }
  }

  lemma {:induction false} NoneFree(f: Frames, n: nat)
    requires n <= |f.allocatable| && n <= |f.used| && forall i :: 0 <= i < n ==> !f.allocatable[i]
    ensures FreeCount(f, n) == 0
  {
    if n == 0 {
    } else {
      NoneFree(f, n - 1);
    }
  }

  lemma Untouched(a: seq<bv8>, b: seq<bv8>, n: nat)
    requires n <= 8 * |a| && SameTail(b, a, n) && Bits(a, n) == Bits(b, n)
    ensures a == b
  {
    forall j | 0 <= j < 8 * |a|
      ensures BitAt(a, j) == BitAt(b, j)
    {
      if j < n {
        BitsAt(a, n, j);
        BitsAt(b, n, j);
      }
    }
    SameBitsSameBytes(a, b);
  }
}

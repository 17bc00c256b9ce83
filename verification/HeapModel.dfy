/**
 What the kernel heap promises, over every run: the free list and the live blocks
 tile the arena, `alloc` is first fit, `dealloc` undoes `alloc`, and giving every
 block back, in any order, leaves one block.  `KernelHeap` refines these functions.
 */
module HeapModel {
  import opened FreeSpace
  import opened Wrappers

  datatype Heap = Heap(len: nat, frees: seq<Span>, live: set<Span>)

  ghost predicate LiveCovers(live: set<Span>, x: int) {
    exists s :: s in live && s.Contains(x)
  }

  /** Every byte of the arena is in exactly one free or live block, and blocks are aligned. */
  ghost predicate Tiled(h: Heap) {
    && Aligned(h.len)
    && Canonical(h.frees, h.len)
    && (forall s :: s in h.live ==> SpanOk(s, h.len) && HEADER_SIZE < s.size)
    && (forall s, t :: s in h.live && t in h.live && s != t ==> Disjoint(s, t))
    && (forall x :: 0 <= x < h.len ==> (Covered(h.frees, x) <==> !LiveCovers(h.live, x)))
  }

  function Init(arenaBytes: nat): Heap {
    var len := arenaBytes / HEADER_ALIGN * HEADER_ALIGN;
    if len < MIN_BLOCK then Heap(0, [], {}) else Heap(len, [Span(0, len)], {})
  }

  predicate Fits(s: Span, size: nat, align: nat)
    requires 0 < align
  {
    Place(s.start, align) + size <= s.End()
  }

  /** A payload position the layout rules allow: aligned, with a front gap that is absent or a whole block. */
  ghost predicate LegalPayload(s: Span, payload: nat, size: nat, align: nat)
    requires 0 < align
  {
    && payload % align == 0 && s.start + HEADER_SIZE <= payload
    && GapRule(s.start, payload) && payload + size <= s.End()
  }

  ghost predicate CanHold(s: Span, size: nat, align: nat)
    requires 0 < align
  {
    exists payload :: LegalPayload(s, payload, size, align)
  }

  /** Trying one position is enough: a block holds the request somewhere if and only if it does there. */
  lemma FitsIff(s: Span, size: nat, align: nat)
    requires 0 < align && PowerOfTwo(align) && Aligned(s.start)
    ensures Fits(s, size, align) <==> CanHold(s, size, align)
  {
    PlaceSpec(s.start, align);
    if Fits(s, size, align) {
      assert LegalPayload(s, Place(s.start, align), size, align);
    }
    if payload :| LegalPayload(s, payload, size, align) {
      PlaceLeast(s.start, align, payload);
    }
  }

  /** The lowest free block that can hold the request under the front-gap rule. */
  function FirstFit(frees: seq<Span>, size: nat, align: nat): (r: Option<nat>)
    requires 0 < align
    ensures r.Some? ==> r.value < |frees| && Fits(frees[r.value], size, align)
    ensures forall j :: 0 <= j < (if r.Some? then r.value else |frees|) ==> !Fits(frees[j], size, align)
  {
    if frees == [] then None
    else if Fits(frees[0], size, align) then Some(0)
    else match FirstFit(frees[1..], size, align)
         case None =>
           assert forall j :: 1 <= j < |frees| ==> frees[j] == frees[1..][j - 1];
           None
         case Some(i) =>
           assert forall j :: 1 <= j < |frees| ==> frees[j] == frees[1..][j - 1];
           Some(i + 1)
  }

  lemma FirstFitIs(frees: seq<Span>, size: nat, align: nat, i: nat)
    requires 0 < align && i <= |frees|
    requires forall j :: 0 <= j < i ==> !Fits(frees[j], size, align)
    requires i < |frees| ==> Fits(frees[i], size, align)
    ensures FirstFit(frees, size, align) == if i < |frees| then Some(i) else None
  {
  }

  /** Cuts a block for `payload` out of free span `i`. */
  function Allocated(h: Heap, i: nat, payload: nat, size: nat): Heap
    requires i < |h.frees| && h.frees[i].start + HEADER_SIZE <= payload && payload + size <= h.frees[i].End()
  {
    h.(frees := Take(h.frees, i, payload, size), live := h.live + {Carved(h.frees[i], payload, size)})
  }

  ghost function Alloc(h: Heap, size: nat, align: nat): (Heap, Option<nat>) {
    if !ValidRequest(size, align) then (h, None)
    else match FirstFit(h.frees, size, align)
         case None => (h, None)
         case Some(i) =>
           var payload := Place(h.frees[i].start, align);
           (Allocated(h, i, payload, size), Some(payload))
  }

  ghost predicate IsLive(h: Heap, offset: nat) {
    exists s :: s in h.live && s.start + HEADER_SIZE == offset
  }

  /** The header position is strictly inside a live block: nothing `alloc` has returned and not taken back. */
  ghost predicate InsideLive(h: Heap, offset: nat) {
    exists s :: s in h.live && s.start < offset - HEADER_SIZE < s.End()
  }

  ghost function LiveBlock(h: Heap, offset: nat): (s: Span)
    requires IsLive(h, offset)
    ensures s in h.live && s.start + HEADER_SIZE == offset
  {
    var s :| s in h.live && s.start + HEADER_SIZE == offset; s
  }

  function Position(frees: seq<Span>, start: nat): (k: nat)
    ensures k <= |frees|
  {
    if frees == [] || start <= frees[0].start then 0 else 1 + Position(frees[1..], start)
  }

  /** `s` put back in its place, and no longer live. */
  ghost function Give(h: Heap, s: Span): Heap {
    h.(frees := InsertAt(h.frees, Position(h.frees, s.start), s), live := h.live - {s})
  }

  /** For offsets outside the inside of live blocks, which are refused unless live. */
  ghost function Dealloc(h: Heap, offset: nat): Heap {
    if IsLive(h, offset) then Give(h, LiveBlock(h, offset)) else h
  }

  // ----- every step keeps the tiling -----

  /** All of the arena is free, down to the nearest multiple of the header alignment, unless no block fits in it. */
  lemma InitTiled(arenaBytes: nat)
    ensures Tiled(Init(arenaBytes))
    ensures var h := Init(arenaBytes);
            && h.live == {} && h.len % HEADER_ALIGN == 0
            && (if arenaBytes < MIN_BLOCK then h.len == 0 else h.len <= arenaBytes < h.len + HEADER_ALIGN)
            && forall x :: Covered(h.frees, x) <==> 0 <= x < h.len
  {
    var h := Init(arenaBytes);
    AlignedIff(h.len);
    assert Eightfold(0, 0);
    if h.len > 0 {
      forall x
        ensures Covered(h.frees, x) <==> 0 <= x < h.len
      {
        CoveredOne(Span(0, h.len), x);
      }
    }
  }

  lemma LiveFreeDisjoint(h: Heap, s: Span, i: nat)
    requires Tiled(h) && s in h.live && i < |h.frees|
    ensures Disjoint(s, h.frees[i])
  {
    if !Disjoint(s, h.frees[i]) {
      var x := if s.start < h.frees[i].start then h.frees[i].start else s.start;
      assert s.Contains(x) && h.frees[i].Contains(x);
      assert Covered(h.frees, x) && LiveCovers(h.live, x);
      assert false;
    }
  }

  lemma LiveCoversAdd(live: set<Span>, s: Span, x: int)
    ensures LiveCovers(live + {s}, x) <==> LiveCovers(live, x) || s.Contains(x)
  {
    if LiveCovers(live, x) {
      var t :| t in live && t.Contains(x);
      assert t in live + {s};
    } else if s.Contains(x) {
      assert s in live + {s};
    }
  }

  /** `h'` is `h` with the formerly free block `b` live. */
  ghost predicate TakenFrom(h: Heap, h': Heap, b: Span) {
    && Tiled(h')
    && h'.len == h.len && h'.live == h.live + {b} && b !in h.live
    && (forall x :: b.Contains(x) ==> Covered(h.frees, x))
    && (forall x :: Covered(h'.frees, x) <==> Covered(h.frees, x) && !b.Contains(x))
  }

  /** The block cut out of span `i` was free, is now live, and nothing else changes hands. */
  lemma AllocatedTiled(h: Heap, i: nat, payload: nat, size: nat)
    requires Tiled(h) && i < |h.frees| && 0 < size && Placed(h.frees[i], payload, size)
    ensures TakenFrom(h, Allocated(h, i, payload, size), Carved(h.frees[i], payload, size))
    ensures var b := Carved(h.frees[i], payload, size);
            b.start + HEADER_SIZE == payload && payload + size <= b.End()
  {
    var b := Carved(h.frees[i], payload, size);
    CarvedOk(h.frees[i], payload, size, h.len);
    TakeSpec(h.frees, i, payload, size, h.len);
    forall x | b.Contains(x)
      ensures Covered(h.frees, x)
    {
      assert h.frees[i].Contains(x);
    }
    forall s | s in h.live
      ensures Disjoint(s, b)
    {
      LiveFreeDisjoint(h, s, i);
    }
    forall x | 0 <= x < h.len
      ensures Covered(Take(h.frees, i, payload, size), x) <==> !LiveCovers(h.live + {b}, x)
    {
      LiveCoversAdd(h.live, b, x);
    }
  }

  /** What an allocation from block `i` does, for an implementation that has found `i`. */
  lemma AllocAt(h: Heap, size: nat, align: nat, i: nat)
    requires Tiled(h) && ValidRequest(size, align) && FirstFit(h.frees, size, align) == Some(i)
    ensures var payload := Place(h.frees[i].start, align);
            && payload % align == 0
            && Placed(h.frees[i], payload, size)
            && Alloc(h, size, align) == (Allocated(h, i, payload, size), Some(payload))
            && Tiled(Allocated(h, i, payload, size))
  {
    PlaceSpec(h.frees[i].start, align);
    AllocatedTiled(h, i, Place(h.frees[i].start, align), size);
  }

  /**
   First fit, sound and complete: the payload is aligned and lies, with its header, in bytes that
   were free, inside the lowest block that has a legal place for it; refusal means no block has one.
   */
  lemma AllocFirstFit(h: Heap, size: nat, align: nat)
    requires Tiled(h) && ValidRequest(size, align)
    ensures match Alloc(h, size, align).1
            case None =>
              && Alloc(h, size, align).0 == h
              && forall j :: 0 <= j < |h.frees| ==> !CanHold(h.frees[j], size, align)
            case Some(payload) =>
              && payload % align == 0 && HEADER_SIZE <= payload
              && (exists i :: 0 <= i < |h.frees|
                    && h.frees[i].start + HEADER_SIZE <= payload && payload + size <= h.frees[i].End()
                    && (forall j :: 0 <= j < i ==> !CanHold(h.frees[j], size, align)))
              && (forall x :: payload - HEADER_SIZE <= x < payload + size ==>
                              Covered(h.frees, x) && !LiveCovers(h.live, x))
              && IsLive(Alloc(h, size, align).0, payload) && !IsLive(h, payload)
  {
    var r := FirstFit(h.frees, size, align);
    forall j | 0 <= j < |h.frees|
      ensures Fits(h.frees[j], size, align) <==> CanHold(h.frees[j], size, align)
    {
      FitsIff(h.frees[j], size, align);
    }
    if r.Some? {
      AllocAt(h, size, align, r.value);
      FreshBlock(h, r.value, Place(h.frees[r.value].start, align), size);
    }
  }

  // ----- how much an allocation takes -----

  /** The first place at or after the payload's end where a header may stand. */
  predicate NextHeader(e: nat, payload: nat, size: nat) {
    e % HEADER_ALIGN == 0 && payload + size <= e < payload + size + HEADER_ALIGN
  }

  /**
   The block ends there, or, only if less than a whole block of free bytes is left behind that place,
   where they end.
   */
  ghost predicate Snug(h: Heap, b: Span, payload: nat, size: nat) {
    && b.start + HEADER_SIZE == payload
    && exists e: nat :: NextHeader(e, payload, size)
                        && (b.End() == e || (e < b.End() < e + MIN_BLOCK && !Covered(h.frees, b.End())))
  }

  /** Free spans that were not there before can hold a request. */
  ghost predicate NoCrumbs(frees: seq<Span>, frees': seq<Span>) {
    forall t :: t in frees' ==> t in frees || MIN_BLOCK <= t.size
  }

  /** An allocation turns one block of free bytes live, as small as the layout allows, and leaves no crumbs. */
  ghost predicate WellTaken(h: Heap, h': Heap, payload: nat, size: nat) {
    exists b :: TakenFrom(h, h', b) && Snug(h, b, payload, size) && NoCrumbs(h.frees, h'.frees)
  }

  lemma CarvedSnug(h: Heap, i: nat, payload: nat, size: nat)
    requires Tiled(h) && i < |h.frees| && 0 < size && Placed(h.frees[i], payload, size)
    ensures Snug(h, Carved(h.frees[i], payload, size), payload, size)
  {
    var s, e := h.frees[i], TailStart(payload, size);
    RoundUpMultiple(payload + size, HEADER_ALIGN);
    assert NextHeader(e, payload, size);
    PlacedBounds(s, payload, size, h.len);
    EndNotFree(h.frees, h.len, i);
  }

  /** Free spans never touch: behind each of them is a byte that is not free. */
  lemma EndNotFree(frees: seq<Span>, len: nat, i: nat)
    requires Canonical(frees, len) && i < |frees|
    ensures !Covered(frees, frees[i].End())
  {
  }

  lemma TakeNoCrumbs(frees: seq<Span>, i: nat, payload: nat, size: nat)
    requires i < |frees| && frees[i].start + HEADER_SIZE <= payload && GapRule(frees[i].start, payload)
    ensures NoCrumbs(frees, Take(frees, i, payload, size))
  {
    var front, tail := Front(frees[i], payload), Tail(frees[i], payload, size);
    forall t | t in Take(frees, i, payload, size) ensures t in frees || MIN_BLOCK <= t.size {
      assert t in frees[..i] || t in front || t in tail || t in frees[i + 1..];
    }
  }

  lemma AllocSnug(h: Heap, size: nat, align: nat)
    requires Tiled(h) && Alloc(h, size, align).1.Some?
    ensures WellTaken(h, Alloc(h, size, align).0, Alloc(h, size, align).1.value, size)
  {
    var i := FirstFit(h.frees, size, align).value;
    var payload := Place(h.frees[i].start, align);
    AllocAt(h, size, align, i);
    AllocatedTiled(h, i, payload, size);
    CarvedSnug(h, i, payload, size);
    TakeNoCrumbs(h.frees, i, payload, size);
  }

  lemma FreshBlock(h: Heap, i: nat, payload: nat, size: nat)
    requires Tiled(h) && i < |h.frees| && 0 < size && Placed(h.frees[i], payload, size)
    ensures forall x :: payload - HEADER_SIZE <= x < payload + size ==> Covered(h.frees, x) && !LiveCovers(h.live, x)
    ensures IsLive(Allocated(h, i, payload, size), payload) && !IsLive(h, payload)
  {
    AllocatedTiled(h, i, payload, size);
    var b := Carved(h.frees[i], payload, size);
    assert b in Allocated(h, i, payload, size).live;
    forall x | payload - HEADER_SIZE <= x < payload + size
      ensures Covered(h.frees, x) && !LiveCovers(h.live, x)
    {
      assert b.Contains(x);
      CoveredInside(h.frees, h.len, x);
    }
    NotLiveWhereFree(h, payload);
  }

  lemma NotLiveWhereFree(h: Heap, offset: nat)
    requires Tiled(h) && HEADER_SIZE <= offset && Covered(h.frees, offset - HEADER_SIZE)
    ensures !IsLive(h, offset)
  {
    CoveredInside(h.frees, h.len, offset - HEADER_SIZE);
    assert forall s :: s in h.live ==> !s.Contains(offset - HEADER_SIZE);
  }

  lemma CoveredInside(frees: seq<Span>, len: nat, x: int)
    requires Canonical(frees, len) && Covered(frees, x)
    ensures 0 <= x < len
  {
  }

  lemma AllocTiled(h: Heap, size: nat, align: nat)
    requires Tiled(h)
    ensures Tiled(Alloc(h, size, align).0)
  {
    if ValidRequest(size, align) && FirstFit(h.frees, size, align).Some? {
      AllocAt(h, size, align, FirstFit(h.frees, size, align).value);
    }
  }

  lemma {:induction false} PositionSpec(frees: seq<Span>, start: nat)
    ensures forall i :: 0 <= i < Position(frees, start) ==> frees[i].start < start
    ensures Position(frees, start) < |frees| ==> start <= frees[Position(frees, start)].start
  {
    if frees == [] || start <= frees[0].start {
    } else {
      PositionSpec(frees[1..], start);
      forall i | 0 <= i < Position(frees, start)
        ensures frees[i].start < start
      {
        if i > 0 { assert frees[i] == frees[1..][i - 1]; }
      }
    }
  }

  lemma LivePosition(h: Heap, s: Span)
    requires Tiled(h) && s in h.live
    ensures InsertPoint(h.frees, Position(h.frees, s.start), s)
  {
    PositionSpec(h.frees, s.start);
    forall i | 0 <= i < |h.frees|
      ensures Disjoint(s, h.frees[i])
    {
      LiveFreeDisjoint(h, s, i);
    }
  }

  lemma PositionIs(frees: seq<Span>, len: nat, s: Span, k: nat)
    requires Canonical(frees, len) && 0 < s.size && InsertPoint(frees, k, s)
    ensures Position(frees, s.start) == k
  {
    PositionSpec(frees, s.start);
    var p := Position(frees, s.start);
    assert forall i :: 0 <= i < k ==> SpanOk(frees[i], len) && frees[i].start < s.start;
    assert k < |frees| ==> s.start < frees[k].start;
    assert k <= p && p <= k;
  }

  lemma LiveCoversRemove(h: Heap, s: Span, x: int)
    requires Tiled(h) && s in h.live
    ensures LiveCovers(h.live - {s}, x) <==> LiveCovers(h.live, x) && !s.Contains(x)
  {
    if LiveCovers(h.live, x) && !s.Contains(x) {
      var t :| t in h.live && t.Contains(x);
      assert t in h.live - {s};
    }
    if LiveCovers(h.live - {s}, x) {
      var t :| t in h.live - {s} && t.Contains(x);
      assert Disjoint(s, t);
    }
  }

  lemma GiveTiled(h: Heap, s: Span)
    requires Tiled(h) && s in h.live
    ensures Tiled(Give(h, s))
    ensures forall x :: Covered(Give(h, s).frees, x) <==> Covered(h.frees, x) || s.Contains(x)
  {
    var k := Position(h.frees, s.start);
    LivePosition(h, s);
    InsertAtCanonical(h.frees, k, s, h.len);
    forall x
      ensures Covered(Give(h, s).frees, x) <==> Covered(h.frees, x) || s.Contains(x)
      ensures 0 <= x < h.len ==> (Covered(Give(h, s).frees, x) <==> !LiveCovers(h.live - {s}, x))
    {
      InsertAtCovered(h.frees, k, s, h.len, x);
      LiveCoversRemove(h, s, x);
      if s.Contains(x) {
        assert LiveCovers(h.live, x);
      }
    }
  }

  lemma DeallocTiled(h: Heap, offset: nat)
    requires Tiled(h)
    ensures Tiled(Dealloc(h, offset))
  {
    if IsLive(h, offset) {
      GiveTiled(h, LiveBlock(h, offset));
    }
  }

  // ----- whole runs -----

  /** `claimed` is the block that the bytes before `offset`, which may be the owner's, read as. */
  datatype Op = AllocOp(size: nat, align: nat) | DeallocOp(offset: nat, claimed: Span)

  /** A header strictly inside a live block that the checks cannot tell from a true one. */
  ghost predicate Credible(h: Heap, offset: nat, claimed: Span) {
    && InsideLive(h, offset) && claimed.start + HEADER_SIZE == offset
    && HEADER_SIZE <= claimed.size && claimed.End() <= h.len
    && forall i :: 0 <= i < |h.frees| ==> Disjoint(claimed, h.frees[i])
  }

  ghost function Step(h: Heap, op: Op): Heap {
    match op
    case AllocOp(size, align) => Alloc(h, size, align).0
    case DeallocOp(offset, claimed) => if Credible(h, offset, claimed) then Give(h, claimed) else Dealloc(h, offset)
  }

  /** A free of something that `alloc` has not returned is refused. */
  ghost predicate Legal(h: Heap, op: Op) {
    op.DeallocOp? ==> !Credible(h, op.offset, op.claimed)
  }

  ghost predicate LegalRun(h: Heap, ops: seq<Op>)
    decreases |ops|
  {
    ops == [] || (Legal(h, ops[0]) && LegalRun(Step(h, ops[0]), ops[1..]))
  }

  ghost function Run(h: Heap, ops: seq<Op>): Heap
    decreases |ops|
  {
    if ops == [] then h else Run(Step(h, ops[0]), ops[1..])
  }

  /** The blocks tile the arena, before the run and after every step. */
  ghost predicate StaysTiled(h: Heap, ops: seq<Op>)
    decreases |ops|
  {
    Tiled(h) && (ops == [] || StaysTiled(Step(h, ops[0]), ops[1..]))
  }

  /** Giving back a span that begins strictly inside a live block frees live bytes. */
  lemma InsideFreeBreaks(h: Heap, s: Span, claimed: Span)
    requires Tiled(h) && s in h.live && s.start < claimed.start < s.End()
    requires 0 < claimed.size && InsertPoint(h.frees, Position(h.frees, claimed.start), claimed)
    ensures !Tiled(Give(h, claimed))
  {
    var k := Position(h.frees, claimed.start);
    var x, joined := claimed.start, Joined(h.frees, k, claimed);
    SpliceCovered(h.frees, JoinLow(h.frees, k, claimed), JoinHigh(h.frees, k, claimed), [joined], x);
    CoveredOne(joined, x);
    assert s in h.live - {claimed} && s.Contains(x);
    assert LiveCovers(h.live - {claimed}, x);
  }

  lemma CrediblePlace(h: Heap, offset: nat, claimed: Span)
    requires Tiled(h) && Credible(h, offset, claimed)
    ensures InsertPoint(h.frees, Position(h.frees, claimed.start), claimed)
  {
    PositionSpec(h.frees, claimed.start);
  }

  /** One step keeps the tiling if and only if it is legal. */
  lemma StepTiledIff(h: Heap, op: Op)
    requires Tiled(h)
    ensures Tiled(Step(h, op)) <==> Legal(h, op)
    ensures Step(h, op).len == h.len
  {
    match op
    case AllocOp(size, align) => AllocTiled(h, size, align);
    case DeallocOp(offset, claimed) =>
      if Credible(h, offset, claimed) {
        CrediblePlace(h, offset, claimed);
        var s :| s in h.live && s.start < claimed.start < s.End();
        InsideFreeBreaks(h, s, claimed);
      } else {
        DeallocTiled(h, offset);
      }
  }

  /** Free and live blocks tile the arena throughout a run of requests if and only if the run is legal. */
  lemma {:induction false} RunTiledIff(h: Heap, ops: seq<Op>)
    requires Tiled(h)
    ensures StaysTiled(h, ops) <==> LegalRun(h, ops)
    ensures LegalRun(h, ops) ==> Tiled(Run(h, ops)) && Run(h, ops).len == h.len
    decreases |ops|
  {
    if ops == [] {
    } else {
      StepTiledIff(h, ops[0]);
      if Legal(h, ops[0]) {
        RunTiledIff(Step(h, ops[0]), ops[1..]);
      }
    }
  }

  /** Live payloads never move onto each other: distinct live blocks have distinct offsets. */
  lemma LiveBlockUnique(h: Heap, s: Span)
    requires Tiled(h) && s in h.live
    ensures IsLive(h, s.start + HEADER_SIZE) && LiveBlock(h, s.start + HEADER_SIZE) == s
  {
  }

  /** Giving back the block that an allocation took restores the heap. */
  lemma GiveRestores(h: Heap, h': Heap, b: Span, offset: nat)
    requires Tiled(h) && TakenFrom(h, h', b) && offset == b.start + HEADER_SIZE
    ensures Dealloc(h', offset) == h
  {
    LiveBlockUnique(h', b);
    GiveTiled(h', b);
    CanonicalUnique(Give(h', b).frees, h.frees, h.len);
    assert h'.live - {b} == h.live;
  }

  lemma GiveUndoesAllocated(h: Heap, i: nat, payload: nat, size: nat)
    requires Tiled(h) && i < |h.frees| && 0 < size && Placed(h.frees[i], payload, size)
    ensures Dealloc(Allocated(h, i, payload, size), payload) == h
  {
    AllocatedTiled(h, i, payload, size);
    GiveRestores(h, Allocated(h, i, payload, size), Carved(h.frees[i], payload, size), payload);
  }

  /** Freeing a fresh allocation restores the heap exactly, whatever was split to make it. */
  lemma DeallocUndoesAlloc(h: Heap, size: nat, align: nat)
    requires Tiled(h) && Alloc(h, size, align).1.Some?
    ensures Dealloc(Alloc(h, size, align).0, Alloc(h, size, align).1.value) == h
  {
    var i := FirstFit(h.frees, size, align).value;
    AllocAt(h, size, align, i);
    GiveUndoesAllocated(h, i, Place(h.frees[i].start, align), size);
  }

  /** The order of two frees does not matter. */
  lemma FreesCommute(h: Heap, s: Span, t: Span)
    requires Tiled(h) && s in h.live && t in h.live && s != t
    ensures Give(Give(h, s), t) == Give(Give(h, t), s)
  {
    GiveTiled(h, s);
    GiveTiled(Give(h, s), t);
    GiveTiled(h, t);
    GiveTiled(Give(h, t), s);
    CanonicalUnique(Give(Give(h, s), t).frees, Give(Give(h, t), s).frees, h.len);
    assert h.live - {s} - {t} == h.live - {t} - {s};
  }

  /** With nothing live the whole arena is one free block. */
  lemma NothingLive(h: Heap)
    requires Tiled(h) && h.live == {} && HEADER_SIZE <= h.len
    ensures h.frees == [Span(0, h.len)]
  {
    forall x
      ensures Covered(h.frees, x) <==> Covered([Span(0, h.len)], x)
    {
      CoveredOne(Span(0, h.len), x);
    }
    assert Eightfold(0, 0);
    CanonicalUnique(h.frees, [Span(0, h.len)], h.len);
  }

  function FreeOp(s: Span): Op { DeallocOp(s.start + HEADER_SIZE, s) }

  function Frees(order: seq<Span>): seq<Op> {
    if order == [] then [] else [FreeOp(order[0])] + Frees(order[1..])
  }

  lemma FreeRemoves(h: Heap, s: Span)
    requires Tiled(h) && Legal(h, FreeOp(s))
    ensures Step(h, FreeOp(s)).live <= h.live - {s}
  {
    if s in h.live {
      LiveBlockUnique(h, s);
    }
  }

  ghost predicate AllDisjoint(spans: set<Span>) {
    forall s, t :: s in spans && t in spans && s != t ==> Disjoint(s, t)
  }

  lemma OneOfDisjoint(h: Heap, were: set<Span>, s: Span)
    requires h.live <= were && AllDisjoint(were) && s in were && 0 < s.size
    ensures Legal(h, FreeOp(s))
  {
    assert forall t :: t in h.live && t != s ==> Disjoint(s, t);
  }

  /** Blocks that were live together are legal to free in any order, each once or more. */
  lemma {:induction false} LiveOrderLegal(h: Heap, order: seq<Span>, were: set<Span>)
    requires Tiled(h) && h.live <= were && AllDisjoint(were)
    requires (forall s :: s in order ==> s in were) && forall s :: s in were ==> 0 < s.size
    ensures LegalRun(h, Frees(order))
    decreases |order|
  {
    if order == [] {
    } else {
      assert order[0] in were;
      OneOfDisjoint(h, were, order[0]);
      StepTiledIff(h, FreeOp(order[0]));
      FreeRemoves(h, order[0]);
      LiveOrderLegal(Step(h, FreeOp(order[0])), order[1..], were);
      assert Frees(order)[1..] == Frees(order[1..]);
    }
  }

  /** Giving every live block back, in whatever order, coalesces the arena into one block. */
  lemma {:induction false} FreeAllCoalesces(h: Heap, order: seq<Span>)
    requires Tiled(h) && HEADER_SIZE <= h.len && LegalRun(h, Frees(order))
    requires forall s :: s in h.live ==> s in order
    ensures Run(h, Frees(order)) == Heap(h.len, [Span(0, h.len)], {})
    decreases |order|
  {
    if order == [] {
      assert h.live == {};
      NothingLive(h);
    } else {
      assert Frees(order)[1..] == Frees(order[1..]) && Frees(order)[0] == FreeOp(order[0]);
      StepTiledIff(h, FreeOp(order[0]));
      FreeRemoves(h, order[0]);
      StillOrdered(h.live, Step(h, FreeOp(order[0])).live, order);
      FreeAllCoalesces(Step(h, FreeOp(order[0])), order[1..]);
    }
  }

  lemma StillOrdered(live: set<Span>, live': set<Span>, order: seq<Span>)
    requires order != [] && live' <= live - {order[0]} && forall s :: s in live ==> s in order
    ensures forall s :: s in live' ==> s in order[1..]
  {
    assert order == [order[0]] + order[1..];
  }

  // ----- no byte is lost -----

  function TotalSize(spans: seq<Span>): nat {
    if spans == [] then 0 else spans[0].size + TotalSize(spans[1..])
  }

  ghost function LiveSize(live: set<Span>): nat {
    if live == {} then 0 else var s :| s in live; s.size + LiveSize(live - {s})
  }

  lemma {:induction false} TotalConcat(a: seq<Span>, b: seq<Span>)
    ensures TotalSize(a + b) == TotalSize(a) + TotalSize(b)
  {
    if a == [] {
      assert a + b == b;
    } else {
      TotalConcat(a[1..], b);
      assert (a + b)[1..] == a[1..] + b;
    }
  }

  lemma {:induction false} LiveSizeWithout(live: set<Span>, s: Span)
    requires s in live
    ensures LiveSize(live) == s.size + LiveSize(live - {s})
    decreases |live|
  {
    var t :| t in live && LiveSize(live) == t.size + LiveSize(live - {t});
    if s == t {
    } else {
      LiveSizeWithout(live - {t}, s);
      LiveSizeWithout(live - {s}, t);
      assert live - {t} - {s} == live - {s} - {t};
    }
  }

  lemma SplitTotal(a: seq<Span>, b: seq<Span>, c: seq<Span>)
    ensures TotalSize(a + b + c) == TotalSize(a) + TotalSize(b) + TotalSize(c)
  {
    TotalConcat(a + b, c);
    TotalConcat(a, b);
  }

  lemma SpliceTotal(frees: seq<Span>, lo: nat, hi: nat, mid: seq<Span>)
    requires lo <= hi <= |frees|
    ensures TotalSize(Splice(frees, lo, hi, mid)) == TotalSize(frees) - TotalSize(frees[lo..hi]) + TotalSize(mid)
  {
    assert frees[..lo] + frees[lo..hi] + frees[hi..] == frees by {
      assert frees[..lo] + frees[lo..hi] == frees[..hi];
    }
    SplitTotal(frees[..lo], mid, frees[hi..]);
    SplitTotal(frees[..lo], frees[lo..hi], frees[hi..]);
  }

  lemma InsertTotal(frees: seq<Span>, k: nat, s: Span)
    requires k <= |frees|
    ensures TotalSize(InsertAt(frees, k, s)) == TotalSize(frees) + s.size
  {
    var lo, hi, m := JoinLow(frees, k, s), JoinHigh(frees, k, s), Joined(frees, k, s);
    SpliceTotal(frees, lo, hi, [m]);
    MiddleTotal(frees, lo, k, hi);
    assert TotalSize([m]) == m.size;
  }

  lemma MiddleTotal(frees: seq<Span>, lo: nat, k: nat, hi: nat)
    requires lo <= k <= hi <= |frees| && k <= lo + 1 && hi <= k + 1
    ensures TotalSize(frees[lo..hi]) == (if lo < k then frees[lo].size else 0) + (if k < hi then frees[k].size else 0)
  {
    assert lo < k ==> frees[lo..k] == [frees[lo]];
    assert k < hi ==> frees[k..hi] == [frees[k]];
    assert frees[lo..hi] == frees[lo..k] + frees[k..hi];
    TotalConcat(frees[lo..k], frees[k..hi]);
  }

  /** Free and live sizes add up to the arena. */
  lemma {:induction false} SizesAddUp(h: Heap)
    requires Tiled(h)
    ensures TotalSize(h.frees) + LiveSize(h.live) == h.len
    decreases |h.live|
  {
    if h.live == {} {
      if h.frees == [] {
        assert h.len > 0 ==> Covered(h.frees, 0);
      } else {
        assert SpanOk(h.frees[0], h.len);
        NothingLive(h);
      }
    } else {
      var s :| s in h.live;
      GiveTiled(h, s);
      SizesAddUp(Give(h, s));
      InsertTotal(h.frees, Position(h.frees, s.start), s);
      LiveSizeWithout(h.live, s);
    }
  }
}

/**
 The first-fit free list whose 24-byte headers live inside the arena it manages.
 Each operation is proved to move the abstract heap exactly as `HeapModel` says.
 */
module KernelHeap {
  import opened FreeSpace
  import opened HeapHeaders
  import opened LittleEndian
  import opened Wrappers
  import HeapModel

  datatype FreeListError =
    | OutOfArena(offset: nat)
    | AlreadyFree(offset: nat)
    | NotAllocated(offset: nat)
    | Corrupted(offset: nat)

  method IsPowerOfTwo(n: nat) returns (b: bool)
    ensures b <==> 0 < n && PowerOfTwo(n)
  {
    var m := n;
    while m > 1 && m % 2 == 0
      invariant (0 < m <==> 0 < n) && (PowerOfTwo(m) <==> PowerOfTwo(n))
    {
      HalfOfPower(m);
      m := m / 2;
    }
    OddPower(m);
    b := m == 1;
  }

  lemma HalfOfPower(m: nat)
    requires 0 < m && m % 2 == 0
    ensures PowerOfTwo(m) <==> PowerOfTwo(m / 2)
  {
    if PowerOfTwo(m) {
      var k: nat :| m == Pow2(k);
      assert m / 2 == Pow2(k - 1);
    }
    if PowerOfTwo(m / 2) {
      var k: nat :| m / 2 == Pow2(k);
      assert m == Pow2(k + 1);
    }
  }

  lemma OddPower(m: nat)
    requires m <= 1 || m % 2 == 1
    ensures 0 < m && PowerOfTwo(m) <==> m == 1
  {
    assert Pow2(0) == 1;
    if k: nat :| m == Pow2(k) && 0 < k {
      assert m == 2 * Pow2(k - 1);
      PowPositive(k - 1);
    }
  }

  lemma {:induction false} PowPositive(k: nat)
    ensures 0 < Pow2(k)
  {
    if k == 0 {
    } else {
      PowPositive(k - 1);
    }
  }

  /** `align_up` on powers of two; overflow yields nothing. */
  function AlignUp(value: nat, align: nat): Option<nat>
    requires 0 < align
  {
    if value + align - 1 < U64_LIMIT then Some(RoundUp(value, align)) else None
  }

  // ----- list statistics -----

  /** Payload bytes of the first `n` free blocks. */
  function FreeBytes(frees: seq<Span>, n: nat): int
    requires n <= |frees|
  {
    if n == 0 then 0 else FreeBytes(frees, n - 1) + (frees[n - 1].size - HEADER_SIZE)
  }

  /** Largest payload among the first `n` free blocks, or zero. */
  function LargestFree(frees: seq<Span>, n: nat): int
    requires n <= |frees|
  {
    if n == 0 then 0 else
      var payload := frees[n - 1].size - HEADER_SIZE;
      if payload > LargestFree(frees, n - 1) then payload else LargestFree(frees, n - 1)
  }

  /** It bounds every free payload, and some block attains it. */
  lemma {:induction false} LargestFreeIs(frees: seq<Span>, n: nat)
    requires n <= |frees| && forall i :: 0 <= i < n ==> HEADER_SIZE <= frees[i].size
    ensures forall i :: 0 <= i < n ==> frees[i].size - HEADER_SIZE <= LargestFree(frees, n)
    ensures if n == 0 then LargestFree(frees, n) == 0
            else exists i :: 0 <= i < n && frees[i].size - HEADER_SIZE == LargestFree(frees, n)
  {
    if n == 0 {
    } else {
      LargestFreeIs(frees, n - 1);
      assert frees[n - 1].size - HEADER_SIZE <= LargestFree(frees, n);
    }
  }

  lemma {:induction false} FreeBytesTotal(frees: seq<Span>, n: nat)
    requires n <= |frees|
    ensures FreeBytes(frees, n) + HEADER_SIZE * n == HeapModel.TotalSize(frees[..n])
  {
    if n == 0 {
    } else {
      FreeBytesTotal(frees, n - 1);
      assert frees[..n] == frees[..n - 1] + [frees[n - 1]];
      HeapModel.TotalConcat(frees[..n - 1], [frees[n - 1]]);
    }
  }

  /** Free payloads, free headers and live blocks add up to the arena. */
  lemma StatsAddUp(h: HeapModel.Heap)
    requires HeapModel.Tiled(h)
    ensures FreeBytes(h.frees, |h.frees|) + HEADER_SIZE * |h.frees| + HeapModel.LiveSize(h.live) == h.len
  {
    FreeBytesTotal(h.frees, |h.frees|);
    assert h.frees[..|h.frees|] == h.frees;
    HeapModel.SizesAddUp(h);
  }

  /** A pass over the list that has seen its first `blocks` blocks. */
  ghost predicate ScanAt(frees: seq<Span>, current: nat, guard: nat, blocks: nat, bytes: nat, largest: nat) {
    && blocks <= |frees| && current == StartOf(frees, blocks) && guard == blocks
    && bytes == FreeBytes(frees, blocks) && largest == LargestFree(frees, blocks)
  }

  /** A free block an allocation can use, and the block before it in the list. */
  /** What one free block says to a request: no later one can hold it, this one cannot, or this one does. */
  datatype Answer = Hopeless | Next(next: nat) | Here(next: nat, blockEnd: nat, payload: nat)

  datatype Candidate = Candidate(previous: nat, current: nat, next: nat, blockEnd: nat, payload: nat)

  /** None of the first `n` free blocks can hold the request. */
  ghost predicate NoneFits(frees: seq<Span>, n: nat, size: nat, align: nat)
    requires n <= |frees| && 0 < align
  {
    forall j :: 0 <= j < n ==> !HeapModel.Fits(frees[j], size, align)
  }

  class FreeList {
    var head: nat
    var arenaLen: nat
    var freeBlocks: nat
    var freeBytes: nat
    var largestFree: nat
    ghost var model: HeapModel.Heap

    predicate Matches(arena: array<byte>)
      reads `arenaLen
    {
      arena.Length / HEADER_ALIGN * HEADER_ALIGN == arenaLen
    }

    function MaxBlocks(): nat
      reads `arenaLen
    {
      arenaLen / HEADER_ALIGN + 2
    }

    /** The list in the arena is `frees`. */
    ghost predicate Holds(arena: array<byte>, frees: seq<Span>)
      reads `head, `arenaLen, arena
    {
      arenaLen <= arena.Length < ARENA_LIMIT && Linked(Headers(arena[..]), head, frees, arenaLen)
    }

    /** The arena holds the abstract heap: free list linked, live blocks tagged. */
    ghost predicate Sound(arena: array<byte>)
      reads `head, `arenaLen, `model, arena
    {
      Holds(arena, model.frees) && model.len == arenaLen && Tagged(Headers(arena[..]), model.live, arenaLen)
    }

    ghost predicate StatsRight()
      reads this
    {
      && freeBlocks == |model.frees|
      && freeBytes == FreeBytes(model.frees, |model.frees|)
      && largestFree == LargestFree(model.frees, |model.frees|)
    }

    ghost predicate Valid(arena: array<byte>)
      reads this, arena
    {
      Sound(arena) && StatsRight() && HeapModel.Tiled(model)
    }

    /** One node of the free list, with the checks every traversal makes; a list node passes them. */
    method ReadNode(arena: array<byte>, current: nat, ghost frees: seq<Span>, ghost i: nat) returns (r: Option<Header>)
      ensures r.Some? ==> HEADER_SIZE <= r.value.size && current + r.value.size <= arenaLen
      ensures Holds(arena, frees) && i < |frees| && current == frees[i].start ==>
                r == Some(Header(MAGIC_FREE, frees[i].size, StartOf(frees, i + 1)))
    {
      r := ReadHeader(arena[..], current);
      if Holds(arena, frees) && i < |frees| && current == frees[i].start {
        HeadersAt(arena[..], current);
        assert Link(Headers(arena[..]), frees, i);
      }
      if r.Some?
         && (r.value.magic != MAGIC_FREE || r.value.size < HEADER_SIZE || current + r.value.size > arenaLen)
      {
        return None;
      }
    }

    /** Asks one free block. */
    method Ask(arena: array<byte>, current: nat, size: nat, align: nat, ghost frees: seq<Span>, ghost i: nat)
      returns (r: Answer)
      requires Holds(arena, frees) && ValidRequest(size, align) && size < U64_LIMIT
      requires i < |frees| && current == frees[i].start && NoneFits(frees, i, size, align)
      ensures match r
              case Hopeless => NoneFits(frees, |frees|, size, align)
              case Next(next) => NoneFits(frees, i + 1, size, align) && next == StartOf(frees, i + 1)
              case Here(next, blockEnd, payload) =>
                && HeapModel.Fits(frees[i], size, align) && next == StartOf(frees, i + 1)
                && blockEnd == frees[i].End() && payload == Place(current, align)
    {
      var node := ReadNode(arena, current, frees, i);
      if node.None? {
        return Hopeless;
      }
      var payload := PlaceChecked(current, align, size);
      if payload.None? {
        TooLarge(frees, size, align, i, arenaLen);
        return Hopeless;
      }
      var blockEnd := current + node.value.size;
      return if payload.value + size <= blockEnd then Here(node.value.next, blockEnd, payload.value)
             else Next(node.value.next);
    }

    /** First fit: nothing found means no free block can hold the request. */
    method FindFit(arena: array<byte>, size: nat, align: nat, ghost frees: seq<Span>)
      returns (r: Option<Candidate>, ghost i: nat)
      requires Holds(arena, frees) && ValidRequest(size, align) && size < U64_LIMIT
      ensures r.None? <==> NoneFits(frees, |frees|, size, align)
      ensures i == |frees| <==> r.None?
      ensures i <= |frees| && NoneFits(frees, i, size, align)
      ensures r.Some? ==> HeapModel.Fits(frees[i], size, align) && Chosen(r.value, frees, i)
      ensures r.Some? ==> r.value.payload == Place(frees[i].start, align)
    {
      CountBound(frees, arenaLen);
      i := 0;
      var previous, current, guard := NONE, head, 0;
      while current != NONE
        invariant i <= |frees|
        invariant current == StartOf(frees, i) && guard == i
        invariant previous == if i == 0 then NONE else frees[i - 1].start
        invariant NoneFits(frees, i, size, align)
        decreases |frees| - i
      {
        guard := guard + 1;
        if guard > MaxBlocks() {
          return None, i;
        }
        var answer := Ask(arena, current, size, align, frees, i);
        match answer {
          case Hopeless => return None, |frees|;
          case Here(next, blockEnd, payload) =>
            return Some(Candidate(previous, current, next, blockEnd, payload)), i;
          case Next(next) => previous, current, i := current, next, i + 1;
        }
      }
      return None, i;
    }

    /** Writes the headers of the live block, the tail and the front gap; returns the list's new link. */
    method WriteParts(arena: array<byte>, c: Candidate, tailStart: nat) returns (newNext: nat)
      requires c.current + HEADER_SIZE <= c.payload <= tailStart <= c.blockEnd <= arena.Length < ARENA_LIMIT
      requires GapRule(c.current, c.payload) && c.next < U64_LIMIT
      modifies arena
      ensures forall x :: 0 <= x < arena.Length && !(c.current <= x < c.blockEnd) ==> arena[x] == old(arena[x])
      ensures |Headers(arena[..])| == arena.Length - HEADER_SIZE + 1
      ensures forall p :: 0 <= p < |Headers(arena[..])| && (p + HEADER_SIZE <= c.current || c.blockEnd <= p) ==>
                          Headers(arena[..])[p] == old(Headers(arena[..]))[p]
      ensures PartsWritten(Headers(arena[..]), c, tailStart, newNext)
    {
      var frontGap := c.payload - (c.current + HEADER_SIZE);
      var headerOffset := c.payload - HEADER_SIZE;
      var tail := c.blockEnd - tailStart;
      var allocSize := if tail >= MIN_BLOCK then tailStart - headerOffset else c.blockEnd - headerOffset;
      WriteHeader(arena, headerOffset, Header(MAGIC_ALLOC, allocSize, NONE));
      newNext := c.next;
      if tail >= MIN_BLOCK {
        WriteHeader(arena, tailStart, Header(MAGIC_FREE, tail, newNext));
        newNext := tailStart;
      }
      if frontGap > 0 {
        WriteHeader(arena, c.current, Header(MAGIC_FREE, frontGap, newNext));
        newNext := c.current;
      }
    }

    /** Writes the parts of the chosen block, then links whatever precedes it to them. */
    method Carve(arena: array<byte>, c: Candidate, tailStart: nat) returns (ghost parts: seq<Header>, newNext: nat)
      requires c.current + HEADER_SIZE <= c.payload <= tailStart <= c.blockEnd <= arena.Length < ARENA_LIMIT
      requires GapRule(c.current, c.payload) && c.next < U64_LIMIT
      requires c.previous != NONE ==> c.previous + HEADER_SIZE <= c.current
      modifies `head, arena
      ensures |parts| == |Headers(arena[..])| == arena.Length - HEADER_SIZE + 1
      ensures forall p :: 0 <= p < |parts| && (p + HEADER_SIZE <= c.current || c.blockEnd <= p) ==>
                          parts[p] == old(Headers(arena[..]))[p]
      ensures PartsWritten(parts, c, tailStart, newNext)
      ensures Relinked(parts, Headers(arena[..]), old(head), head, c.previous, newNext)
      ensures forall x :: 0 <= x < arena.Length
                          && !(c.current <= x < c.blockEnd || c.previous <= x < c.previous + HEADER_SIZE) ==>
                          arena[x] == old(arena[x])
    {
      var previousSize := 0;
      if c.previous != NONE {
        HeadersAt(arena[..], c.previous);
        HeaderFields(arena[..], c.previous);
        previousSize := ReadHeader(arena[..], c.previous).value.size;
      }
      newNext := WriteParts(arena, c, tailStart);
      parts := Headers(arena[..]);
      if c.previous == NONE {
        head := newNext;
      } else {
        WriteHeader(arena, c.previous, Header(MAGIC_FREE, previousSize, newNext));
      }
    }

    /** Cuts the request out of free block `i`: only free bytes change. */
    method TakeFrom(arena: array<byte>, c: Candidate, size: nat, ghost frees: seq<Span>, ghost i: nat)
      requires Holds(arena, frees) && i < |frees| && 0 < size
      requires Chosen(c, frees, i) && Placed(frees[i], c.payload, size)
      modifies `head, arena
      ensures Holds(arena, Take(frees, i, c.payload, size))
      ensures Tagged(Headers(arena[..]), {Carved(frees[i], c.payload, size)}, arenaLen)
      ensures forall x :: 0 <= x < arena.Length && !Covered(frees, x) ==> arena[x] == old(arena[x])
    {
      ghost var view := Headers(arena[..]);
      PlacedBounds(frees[i], c.payload, size, arenaLen);
      ghost var parts, newNext := Carve(arena, c, TailStart(c.payload, size));
      TakeLinks(view, parts, Headers(arena[..]), old(head), head, c, size, newNext, frees, i, arenaLen);
    }

    /** Rescans the list, as far as it reads like one. */
    method Recompute(arena: array<byte>)
      modifies `freeBlocks, `freeBytes, `largestFree
      ensures Holds(arena, model.frees) ==> StatsRight()
    {
      freeBlocks, freeBytes, largestFree := Scan(arena, model.frees);
    }

    /** The statistics of the list: a pass over it that ends at its last block. */
    method Scan(arena: array<byte>, ghost frees: seq<Span>) returns (blocks: nat, bytes: nat, largest: nat)
      ensures Holds(arena, frees) ==>
                blocks == |frees| && bytes == FreeBytes(frees, |frees|) && largest == LargestFree(frees, |frees|)
    {
      var current, guard := head, 0;
      blocks, bytes, largest := 0, 0, 0;
      while current != NONE
        invariant guard <= MaxBlocks() + 1
        invariant Holds(arena, frees) ==> ScanAt(frees, current, guard, blocks, bytes, largest)
        decreases MaxBlocks() + 1 - guard
      {
        guard := guard + 1;
        if Holds(arena, frees) {
          CountBound(frees, arenaLen);
        }
        if guard > MaxBlocks() {
          break;
        }
        var node := ReadNode(arena, current, frees, blocks);
        if node.None? {
          break;
        }
        var payload := node.value.size - HEADER_SIZE;
        blocks := blocks + 1;
        bytes := bytes + payload;
        largest := if payload > largest then payload else largest;
        current := node.value.next;
      }
    }

    constructor Init(arena: array<byte>)
      requires arena.Length < ARENA_LIMIT
      modifies arena
      ensures Valid(arena) && model == HeapModel.Init(arena.Length)
    {
      var len := arena.Length / HEADER_ALIGN * HEADER_ALIGN;
      model := HeapModel.Init(arena.Length);
      HeapModel.InitTiled(arena.Length);
      if len < MIN_BLOCK {
        head, arenaLen, freeBlocks, freeBytes, largestFree := NONE, 0, 0, 0, 0;
      } else {
        WriteHeader(arena, 0, Header(MAGIC_FREE, len, NONE));
        head, arenaLen, freeBlocks := 0, len, 1;
        freeBytes, largestFree := len - HEADER_SIZE, len - HEADER_SIZE;
      }
    }

    /** The block first fit picks, and what the abstract heap does with it. */
    method Choose(arena: array<byte>, size: nat, align: nat) returns (r: Option<Candidate>, ghost i: nat)
      requires Sound(arena) && HeapModel.Tiled(model) && ValidRequest(size, align) && size < U64_LIMIT
      ensures r.None? ==> HeapModel.Alloc(model, size, align) == (model, None)
      ensures r.Some? ==>
                && i < |model.frees| && Chosen(r.value, model.frees, i) && Placed(model.frees[i], r.value.payload, size)
                && HeapModel.Tiled(HeapModel.Allocated(model, i, r.value.payload, size))
                && HeapModel.Alloc(model, size, align)
                   == (HeapModel.Allocated(model, i, r.value.payload, size), Some(r.value.payload))
    {
      r, i := FindFit(arena, size, align, model.frees);
      HeapModel.FirstFitIs(model.frees, size, align, i);
      if r.Some? {
        HeapModel.AllocAt(model, size, align, i);
      }
    }

    method Commit(arena: array<byte>, c: Candidate, size: nat, ghost i: nat)
      requires Sound(arena) && HeapModel.Tiled(model) && 0 < size
      requires i < |model.frees| && Chosen(c, model.frees, i) && Placed(model.frees[i], c.payload, size)
      modifies `head, `model, arena
      ensures Sound(arena)
      ensures model == HeapModel.Allocated(old(model), i, c.payload, size)
      ensures forall x :: 0 <= x < arena.Length && HeapModel.LiveCovers(old(model.live), x) ==>
                          arena[x] == old(arena[x])
    {
      ghost var h, mem := model, arena[..];
      TakeFrom(arena, c, size, h.frees, i);
      LiveUntouched(h, mem, arena[..], {Carved(h.frees[i], c.payload, size)});
      model := HeapModel.Allocated(h, i, c.payload, size);
    }

    method AllocFit(arena: array<byte>, size: nat, align: nat) returns (r: Option<nat>)
      requires Valid(arena) && ValidRequest(size, align) && size < U64_LIMIT
      modifies this, arena
      ensures Valid(arena) && arenaLen == old(arenaLen)
      ensures (model, r) == HeapModel.Alloc(old(model), size, align)
      ensures r.None? ==> unchanged(this) && unchanged(arena)
      ensures forall x :: 0 <= x < arena.Length && HeapModel.LiveCovers(old(model.live), x) ==>
                          arena[x] == old(arena[x])
    {
      var c, i := Choose(arena, size, align);
      r := None;
      if c.Some? {
        Commit(arena, c.value, size, i);
        Recompute(arena);
        r := Some(c.value.payload);
      }
    }

    /** Refines `HeapModel.Alloc`; no byte of a live block changes, and failure changes nothing. */
    method Alloc(arena: array<byte>, size: nat, align: nat) returns (r: Option<nat>)
      requires size < U64_LIMIT && align < U64_LIMIT && (Matches(arena) ==> Valid(arena))
      modifies this, arena
      ensures arenaLen == old(arenaLen)
      ensures !Matches(arena) ==> r.None?
      ensures Matches(arena) ==> Valid(arena) && (model, r) == HeapModel.Alloc(old(model), size, align)
      ensures r.Some? ==> HeapModel.WellTaken(old(model), model, r.value, size)
      ensures r.None? ==> unchanged(this) && unchanged(arena)
      ensures Matches(arena) ==>
                forall x :: 0 <= x < arena.Length && HeapModel.LiveCovers(old(model.live), x) ==>
                            arena[x] == old(arena[x])
    {
      var powerOfTwo := IsPowerOfTwo(align);
      if size == 0 || !powerOfTwo || align > MAX_ALIGN || head == NONE || !Matches(arena) {
        r := None;
      } else {
        ghost var h := model;
        r := AllocFit(arena, size, align);
        if r.Some? {
          HeapModel.AllocSnug(h, size, align);
        }
      }
    }

    /** The insertion point in address order, unless the block overlaps a free one. */
    method FindPlace(arena: array<byte>, header: nat, blockEnd: nat, ghost frees: seq<Span>)
      returns (overlap: bool, previous: nat, current: nat, ghost k: nat)
      requires Holds(arena, frees) && header < blockEnd <= arenaLen
      ensures overlap <==> Overlapping(frees, Span(header, blockEnd - header))
      ensures !overlap ==>
                && InsertPoint(frees, k, Span(header, blockEnd - header))
                && previous == (if k == 0 then NONE else frees[k - 1].start)
                && current == StartOf(frees, k)
    {
      ghost var s := Span(header, blockEnd - header);
      previous, current, k := NONE, head, 0;
      var guard := 0;
      while current != NONE
        invariant k <= |frees| && current == StartOf(frees, k) && guard == k
        invariant previous == if k == 0 then NONE else frees[k - 1].start
        invariant EndBy(frees, k, header)
        decreases |frees| - k
      {
        guard := guard + 1;
        CountBound(frees, arenaLen);
        if guard > MaxBlocks() {
          return true, previous, current, k;
        }
        var node := ReadNode(arena, current, frees, k);
        if node.None? {
          return true, previous, current, k;
        }
        if current >= header {
          overlap := current < blockEnd;
          PlaceDecided(frees, k, s, arenaLen);
          return;
        }
        if current + node.value.size > header {
          PlaceDecided(frees, k, s, arenaLen);
          return true, previous, current, k;
        }
        previous, current, k := current, node.value.next, k + 1;
      }
      PlaceDecided(frees, k, s, arenaLen);
      overlap := false;
    }

    /** The checks of `dealloc`, for any offset at all: they change nothing and decide exactly `Verdict`. */
    method Admit(arena: array<byte>, offset: nat, ghost frees: seq<Span>)
      returns (r: Result<Admitted, FreeListError>, ghost k: nat)
      requires offset < U64_LIMIT && (Matches(arena) ==> Holds(arena, frees))
      ensures !Matches(arena) ==> r == Err(OutOfArena(offset))
      ensures Matches(arena) ==> Verdict(Headers(arena[..]), frees, arenaLen, offset) == Rejection(r)
      ensures r.Ok? ==>
                && r.value.header + HEADER_SIZE == offset
                && r.value.blockSize == Headers(arena[..])[r.value.header].size
                && InsertPoint(frees, k, Span(r.value.header, r.value.blockSize))
                && r.value.previous == (if k == 0 then NONE else frees[k - 1].start)
                && r.value.current == StartOf(frees, k)
    {
      k := 0;
      if !Matches(arena) || offset < HEADER_SIZE || offset >= arenaLen || offset % HEADER_ALIGN != 0 {
        return Err(OutOfArena(offset)), k;
      }
      var header: nat := offset - HEADER_SIZE;
      var read := ReadHeader(arena[..], header);
      if read.None? {
        return Err(Corrupted(header)), k;
      }
      HeadersAt(arena[..], header);
      var Header(magic, blockSize, _) := read.value;
      if magic == MAGIC_FREE {
        return Err(AlreadyFree(offset)), k;
      }
      if magic != MAGIC_ALLOC {
        return Err(NotAllocated(offset)), k;
      }
      if header + blockSize >= U64_LIMIT || blockSize < HEADER_SIZE || header + blockSize > arenaLen {
        return Err(Corrupted(header)), k;
      }
      var overlap, previous, current, place := FindPlace(arena, header, header + blockSize, frees);
      k := place;
      if overlap {
        return Err(AlreadyFree(offset)), k;
      }
      return Ok(Admitted(header, blockSize, previous, current)), k;
    }

    /** The free block before `target` in the list. */
    method PreviousFree(arena: array<byte>, target: nat, ghost frees: seq<Span>, ghost k: nat) returns (r: Option<nat>)
      requires Holds(arena, frees) && k < |frees| && target == frees[k].start
      ensures r == Some(if k == 0 then NONE else frees[k - 1].start)
    {
      var previous, current, guard := NONE, head, 0;
      while current != NONE
        invariant guard <= k && current == StartOf(frees, guard)
        invariant previous == if guard == 0 then NONE else frees[guard - 1].start
        decreases k - guard
      {
        guard := guard + 1;
        CountBound(frees, arenaLen);
        if guard > MaxBlocks() {
          return None;
        }
        if current == target {
          return Some(previous);
        }
        var node := ReadNode(arena, current, frees, guard - 1);
        if node.None? {
          return None;
        }
        previous, current := current, node.value.next;
      }
      return None;
    }

    /** Swallows the free block that begins where the freed one ends. */
    method MergeNext(arena: array<byte>, a: Admitted, ghost frees: seq<Span>, ghost k: nat)
      returns (size: nat, current: nat)
      requires Holds(arena, frees) && k <= |frees| && a.current == StartOf(frees, k)
      ensures var s := Span(a.header, a.blockSize);
              && size == s.size + (if JoinHigh(frees, k, s) > k then frees[k].size else 0)
              && current == StartOf(frees, JoinHigh(frees, k, s))
    {
      size, current := a.blockSize, a.current;
      if current != NONE && a.header + a.blockSize == current {
        var node := ReadNode(arena, current, frees, k);
        size := size + node.value.size;
        current := node.value.next;
      }
    }

    /** Lets the free block that ends where the freed one begins swallow it. */
    method MergePrevious(arena: array<byte>, a: Admitted, size: nat, ghost frees: seq<Span>, ghost k: nat)
      returns (start: nat, size': nat, previous: nat)
      requires Holds(arena, frees) && k <= |frees| && a.previous == if k == 0 then NONE else frees[k - 1].start
      ensures var low := JoinLow(frees, k, Span(a.header, a.blockSize));
              && start == (if low < k then frees[k - 1].start else a.header)
              && size' == size + (if low < k then frees[k - 1].size else 0)
              && previous == (if low == 0 then NONE else frees[low - 1].start)
    {
      start, size', previous := a.header, size, a.previous;
      if previous != NONE {
        var node := ReadNode(arena, previous, frees, k - 1);
        if previous + node.value.size == start {
          start := previous;
          size' := size' + node.value.size;
          var before := PreviousFree(arena, previous, frees, k - 1);
          previous := before.value;
        }
      }
    }

    /** The merged block, the block after it and the block before it. */
    method Coalesce(arena: array<byte>, a: Admitted, ghost frees: seq<Span>, ghost k: nat)
      returns (start: nat, size: nat, current: nat, previous: nat)
      requires Holds(arena, frees) && k <= |frees| && a.current == StartOf(frees, k)
      requires a.previous == if k == 0 then NONE else frees[k - 1].start
      ensures var s := Span(a.header, a.blockSize);
              && Span(start, size) == Joined(frees, k, s)
              && current == StartOf(frees, JoinHigh(frees, k, s))
              && previous == (if JoinLow(frees, k, s) == 0 then NONE else frees[JoinLow(frees, k, s) - 1].start)
    {
      size, current := MergeNext(arena, a, frees, k);
      start, size, previous := MergePrevious(arena, a, size, frees, k);
    }

    /** Writes the merged block's header, then the link into it. */
    method Insert(arena: array<byte>, start: nat, size: nat, current: nat, previous: nat)
      returns (ghost parts: seq<Header>)
      requires start + HEADER_SIZE <= arena.Length < ARENA_LIMIT && size < U64_LIMIT && current < U64_LIMIT
      requires previous != NONE ==> previous + HEADER_SIZE <= start
      modifies `head, arena
      ensures Inserted(old(Headers(arena[..])), parts, Headers(arena[..]), old(head), head,
                       Span(start, size), current, previous)
      ensures forall x :: 0 <= x < arena.Length
                          && !(start <= x < start + HEADER_SIZE || previous <= x < previous + HEADER_SIZE) ==>
                          arena[x] == old(arena[x])
    {
      WriteHeader(arena, start, Header(MAGIC_FREE, size, current));
      parts := Headers(arena[..]);
      if previous == NONE {
        head := start;
      } else {
        HeadersAt(arena[..], previous);
        HeaderFields(arena[..], previous);
        var previousSize := ReadHeader(arena[..], previous).value.size;
        WriteHeader(arena, previous, Header(MAGIC_FREE, previousSize, start));
      }
    }

    /** Writes the merged block and links it in; only free bytes and the block's own change. */
    method PutBack(arena: array<byte>, a: Admitted, ghost frees: seq<Span>, ghost k: nat)
      returns (ghost parts: seq<Header>)
      requires Holds(arena, frees) && InsertPoint(frees, k, Span(a.header, a.blockSize))
      requires HEADER_SIZE <= a.blockSize && a.header + a.blockSize <= arenaLen
      requires a.current == StartOf(frees, k) && a.previous == if k == 0 then NONE else frees[k - 1].start
      modifies `head, arena
      ensures var s := Span(a.header, a.blockSize);
              var m, lo, hi := Joined(frees, k, s), JoinLow(frees, k, s), JoinHigh(frees, k, s);
              Inserted(old(Headers(arena[..])), parts, Headers(arena[..]), old(head), head, m, StartOf(frees, hi),
                       if lo == 0 then NONE else frees[lo - 1].start)
      ensures forall x :: 0 <= x < arena.Length && !Covered(frees, x) && !Span(a.header, a.blockSize).Contains(x) ==>
                          arena[x] == old(arena[x])
    {
      JoinedBounds(frees, k, Span(a.header, a.blockSize), arenaLen);
      var start, size, current, previous := Coalesce(arena, a, frees, k);
      parts := Insert(arena, start, size, current, previous);
    }

    /** Puts the admitted block back, merged with the neighbours it touches. */
    method GiveBack(arena: array<byte>, a: Admitted, ghost frees: seq<Span>, ghost k: nat)
      requires Holds(arena, frees) && InsertPoint(frees, k, Span(a.header, a.blockSize))
      requires HEADER_SIZE <= a.blockSize && a.header + a.blockSize <= arenaLen
      requires a.current == StartOf(frees, k) && a.previous == if k == 0 then NONE else frees[k - 1].start
      modifies `head, arena
      ensures SpanOk(Span(a.header, a.blockSize), arenaLen) ==>
                Holds(arena, InsertAt(frees, k, Span(a.header, a.blockSize)))
      ensures forall x :: 0 <= x < arena.Length && !Covered(frees, x) && !Span(a.header, a.blockSize).Contains(x) ==>
                          arena[x] == old(arena[x])
    {
      ghost var view, s := Headers(arena[..]), Span(a.header, a.blockSize);
      ghost var parts := PutBack(arena, a, frees, k);
      InsertLinks(view, parts, Headers(arena[..]), old(head), head, frees, k, s, arenaLen);
    }

    /** Frees an admitted block in the abstract heap as well; if it was live, no other live byte changes. */
    method Release(arena: array<byte>, a: Admitted, ghost k: nat)
      requires Sound(arena) && HeapModel.Tiled(model) && InsertPoint(model.frees, k, Span(a.header, a.blockSize))
      requires HEADER_SIZE <= a.blockSize && a.header + a.blockSize <= arenaLen
      requires a.current == StartOf(model.frees, k) && a.previous == if k == 0 then NONE else model.frees[k - 1].start
      modifies `head, `model, arena
      ensures model == HeapModel.Give(old(model), Span(a.header, a.blockSize))
      ensures Span(a.header, a.blockSize) in old(model.live) ==>
                && Sound(arena)
                && forall x :: 0 <= x < arena.Length && HeapModel.LiveCovers(model.live, x) ==>
                               arena[x] == old(arena[x])
    {
      ghost var h, mem, s := model, arena[..], Span(a.header, a.blockSize);
      HeapModel.PositionIs(h.frees, h.len, s, k);
      GiveBack(arena, a, h.frees, k);
      if s in h.live {
        OthersUntouched(h, mem, arena[..], s);
      }
      model := HeapModel.Give(h, s);
    }

    /** An accepted free, with the statistics. */
    method Settle(arena: array<byte>, a: Admitted, ghost k: nat)
      requires Sound(arena) && HeapModel.Tiled(model) && InsertPoint(model.frees, k, Span(a.header, a.blockSize))
      requires HEADER_SIZE <= a.blockSize && a.header + a.blockSize <= arenaLen
      requires a.current == StartOf(model.frees, k) && a.previous == if k == 0 then NONE else model.frees[k - 1].start
      modifies this, arena
      ensures arenaLen == old(arenaLen) && model == HeapModel.Give(old(model), Span(a.header, a.blockSize))
      ensures Span(a.header, a.blockSize) in old(model.live) ==>
                && Sound(arena) && StatsRight()
                && forall x :: 0 <= x < arena.Length && HeapModel.LiveCovers(model.live, x) ==>
                               arena[x] == old(arena[x])
    {
      Release(arena, a, k);
      Recompute(arena);
    }

    /** The free itself, once the arena is known to be the right one. */
    method Decide(arena: array<byte>, offset: nat) returns (r: Result<Unit, FreeListError>)
      requires offset < U64_LIMIT && Matches(arena) && Valid(arena)
      modifies this, arena
      ensures arenaLen == old(arenaLen) && (r.Err? ==> unchanged(this) && unchanged(arena))
      ensures Verdict(old(Headers(arena[..])), old(model.frees), arenaLen, offset) == RejectionOf(r)
      ensures Valid(arena) <==> r.Err? || HeapModel.IsLive(old(model), offset)
      ensures r.Ok? ==> model == HeapModel.Give(old(model), ClaimedAt(old(Headers(arena[..])), offset))
      ensures if Valid(arena) then model == HeapModel.Dealloc(old(model), offset)
              else HeapModel.InsideLive(old(model), offset)
      ensures Valid(arena) ==>
                forall x :: 0 <= x < arena.Length && HeapModel.LiveCovers(model.live, x) ==> arena[x] == old(arena[x])
    {
      var a, k := Admit(arena, offset, model.frees);
      if a.Err? {
        r := Err(a.error);
        RejectedNotLive(model, Headers(arena[..]), offset);
      } else {
        r := Ok(Unit);
        FreedFate(model, Headers(arena[..]), offset, k);
        Settle(arena, a.value, k);
      }
    }

    /**
     The checks decide, for any offset at all, and refusal changes nothing.  The heap stays valid if and
     only if the offset was refused or live; then `HeapModel.Dealloc` is refined and no other live byte changes.
     */
    method Dealloc(arena: array<byte>, offset: nat) returns (r: Result<Unit, FreeListError>)
      requires offset < U64_LIMIT && (Matches(arena) ==> Valid(arena))
      modifies this, arena
      ensures arenaLen == old(arenaLen)
      ensures !Matches(arena) ==> r == Err(OutOfArena(offset))
      ensures r.Err? ==> unchanged(this) && unchanged(arena)
      ensures Matches(arena) ==>
                Verdict(old(Headers(arena[..])), old(model.frees), arenaLen, offset) == RejectionOf(r)
      ensures Matches(arena) ==> (Valid(arena) <==> r.Err? || HeapModel.IsLive(old(model), offset))
      ensures Matches(arena) && r.Ok? ==>
                model == HeapModel.Give(old(model), ClaimedAt(old(Headers(arena[..])), offset))
      ensures Matches(arena) ==>
                if Valid(arena) then model == HeapModel.Dealloc(old(model), offset)
                else HeapModel.InsideLive(old(model), offset)
      ensures Matches(arena) && Valid(arena) ==>
                forall x :: 0 <= x < arena.Length && HeapModel.LiveCovers(model.live, x) ==> arena[x] == old(arena[x])
    {
      if !Matches(arena) {
        r := Err(OutOfArena(offset));
      } else {
        r := Decide(arena, offset);
      }
    }
  }

  function RejectionOf(r: Result<Unit, FreeListError>): Option<FreeListError> {
    match r
    case Ok(_) => None
    case Err(e) => Some(e)
  }

  /** The block that the bytes before `offset` claim. */
  ghost function ClaimedAt(view: seq<Header>, offset: nat): Span {
    if offset < HEADER_SIZE || |view| <= offset - HEADER_SIZE then Span(0, 0)
    else Span(offset - HEADER_SIZE, view[offset - HEADER_SIZE].size)
  }

  /** An accepted free keeps the tiling if and only if the offset was live. */
  lemma FreedFate(h: HeapModel.Heap, view: seq<Header>, offset: nat, k: nat)
    requires HeapModel.Tiled(h) && Tagged(view, h.live, h.len) && Verdict(view, h.frees, h.len, offset) == None
    requires InsertPoint(h.frees, k, ClaimedAt(view, offset))
    ensures var s := ClaimedAt(view, offset);
            if HeapModel.IsLive(h, offset)
            then && s in h.live && HeapModel.Tiled(HeapModel.Give(h, s))
                 && HeapModel.Give(h, s) == HeapModel.Dealloc(h, offset)
            else HeapModel.InsideLive(h, offset) && !HeapModel.Tiled(HeapModel.Give(h, s))
  {
    var s := ClaimedAt(view, offset);
    if HeapModel.IsLive(h, offset) {
      assert s == HeapModel.LiveBlock(h, offset);
      HeapModel.GiveTiled(h, s);
    } else {
      AcceptedIff(h, view, offset);
      HeapModel.PositionIs(h.frees, h.len, s, k);
      var t :| t in h.live && t.start < s.start < t.End();
      HeapModel.InsideFreeBreaks(h, t, s);
    }
  }

  /** A live payload offset is never refused. */
  lemma RejectedNotLive(h: HeapModel.Heap, view: seq<Header>, offset: nat)
    requires HeapModel.Tiled(h) && Tagged(view, h.live, h.len) && Verdict(view, h.frees, h.len, offset).Some?
    ensures !HeapModel.IsLive(h, offset)
  {
    if HeapModel.IsLive(h, offset) {
      LiveAdmitted(h, view, HeapModel.LiveBlock(h, offset));
      assert false;
    }
  }

  lemma LiveAdmitted(h: HeapModel.Heap, view: seq<Header>, s: Span)
    requires HeapModel.Tiled(h) && Tagged(view, h.live, h.len) && s in h.live
    ensures Verdict(view, h.frees, h.len, s.start + HEADER_SIZE) == None
  {
    AlignedIff(s.start);
    forall i | 0 <= i < |h.frees|
      ensures Disjoint(s, h.frees[i])
    {
      HeapModel.LiveFreeDisjoint(h, s, i);
    }
    assert s == Span(s.start, view[s.start].size);
  }

  /** Wherever the header position is free, `dealloc` refuses, even on a stale allocated header. */
  lemma FreeSpaceRejected(h: HeapModel.Heap, view: seq<Header>, offset: nat)
    requires HEADER_SIZE <= offset && Covered(h.frees, offset - HEADER_SIZE)
    ensures Verdict(view, h.frees, h.len, offset).Some?
  {
    var i :| 0 <= i < |h.frees| && h.frees[i].Contains(offset - HEADER_SIZE);
    var s := Span(offset - HEADER_SIZE, if offset - HEADER_SIZE < |view| then view[offset - HEADER_SIZE].size else 0);
    assert HEADER_SIZE <= s.size ==> !Disjoint(s, h.frees[i]);
  }

  /** Outside the inside of live blocks, only live payloads are accepted, with their true size. */
  lemma AdmittedLive(h: HeapModel.Heap, view: seq<Header>, offset: nat)
    requires HeapModel.Tiled(h) && Tagged(view, h.live, h.len) && !HeapModel.InsideLive(h, offset)
    requires Verdict(view, h.frees, h.len, offset) == None
    ensures HeapModel.IsLive(h, offset)
    ensures HeapModel.LiveBlock(h, offset) == Span(offset - HEADER_SIZE, view[offset - HEADER_SIZE].size)
  {
    var x := offset - HEADER_SIZE;
    if Covered(h.frees, x) {
      FreeSpaceRejected(h, view, offset);
      assert false;
    }
    var s :| s in h.live && s.Contains(x);
    assert s.start == x;
    HeapModel.LiveBlockUnique(h, s);
  }

  /** The bytes before an aligned offset of the arena read as an allocated header over no free byte. */
  ghost predicate ReadsAllocated(view: seq<Header>, frees: seq<Span>, len: nat, offset: nat) {
    && HEADER_SIZE <= offset < len && offset % HEADER_ALIGN == 0 && offset - HEADER_SIZE < |view|
    && view[offset - HEADER_SIZE].magic == MAGIC_ALLOC
    && HEADER_SIZE <= ClaimedAt(view, offset).size && ClaimedAt(view, offset).End() <= len
    && !Overlapping(frees, ClaimedAt(view, offset))
  }

  /**
   What `dealloc` accepts, exactly: live payloads, and offsets strictly inside a live block whose bytes,
   which are the owner's, read as an allocated header.  The second kind was never handed out.
   */
  lemma AcceptedIff(h: HeapModel.Heap, view: seq<Header>, offset: nat)
    requires HeapModel.Tiled(h) && Tagged(view, h.live, h.len)
    ensures Verdict(view, h.frees, h.len, offset) == None <==>
            || HeapModel.IsLive(h, offset)
            || (HeapModel.InsideLive(h, offset) && ReadsAllocated(view, h.frees, h.len, offset))
    ensures !(HeapModel.IsLive(h, offset) && HeapModel.InsideLive(h, offset))
  {
    if HeapModel.IsLive(h, offset) {
      var s := HeapModel.LiveBlock(h, offset);
      LiveAdmitted(h, view, s);
      assert forall t :: t in h.live && t != s ==> Disjoint(s, t);
    } else if Verdict(view, h.frees, h.len, offset) == None && !HeapModel.InsideLive(h, offset) {
      AdmittedLive(h, view, offset);
    }
  }

  /** In particular wherever the claimed block stays inside the live one. */
  lemma InsideLiveTrusted(h: HeapModel.Heap, view: seq<Header>, s: Span, offset: nat)
    requires HeapModel.Tiled(h) && Tagged(view, h.live, h.len) && s in h.live
    requires s.start + HEADER_SIZE < offset && offset % HEADER_ALIGN == 0 && offset < s.End()
    requires view[offset - HEADER_SIZE].magic == MAGIC_ALLOC
    requires HEADER_SIZE <= view[offset - HEADER_SIZE].size <= s.End() - (offset - HEADER_SIZE)
    ensures Verdict(view, h.frees, h.len, offset) == None
    ensures HeapModel.InsideLive(h, offset) && !HeapModel.IsLive(h, offset)
  {
    forall i | 0 <= i < |h.frees|
      ensures Disjoint(ClaimedAt(view, offset), h.frees[i])
    {
      HeapModel.LiveFreeDisjoint(h, s, i);
    }
    AcceptedIff(h, view, offset);
  }

  /** An arena of 96 bytes whose one live payload begins with the bytes of an allocated header. */
  function SpelledArena(): seq<byte> {
    HeaderBytes(Header(MAGIC_ALLOC, 96, NONE)) + HeaderBytes(Header(MAGIC_ALLOC, 24, NONE)) + seq(48, _ => 0)
  }

  const SpelledHeap: HeapModel.Heap := HeapModel.Heap(96, [], {Span(0, 96)})

  lemma SpelledHeaders(mem: seq<byte>)
    requires mem == SpelledArena()
    ensures var view := Headers(mem);
            |view| == 73 && view[0] == Header(MAGIC_ALLOC, 96, NONE) && view[24] == Header(MAGIC_ALLOC, 24, NONE)
  {
    assert |mem| == 96;
    assert mem[0..24] == HeaderBytes(Header(MAGIC_ALLOC, 96, NONE));
    assert mem[24..48] == HeaderBytes(Header(MAGIC_ALLOC, 24, NONE));
    HeaderBytesRead(mem, 0, Header(MAGIC_ALLOC, 96, NONE));
    HeaderBytesRead(mem, 24, Header(MAGIC_ALLOC, 24, NONE));
  }

  ghost predicate AcceptsForeign(view: seq<Header>) {
    && Linked(view, NONE, SpelledHeap.frees, SpelledHeap.len) && Tagged(view, SpelledHeap.live, SpelledHeap.len)
    && Verdict(view, SpelledHeap.frees, SpelledHeap.len, 48) == None && !HeapModel.IsLive(SpelledHeap, 48)
  }

  lemma SpelledView(view: seq<Header>)
    requires |view| == 73 && view[0] == Header(MAGIC_ALLOC, 96, NONE) && view[24] == Header(MAGIC_ALLOC, 24, NONE)
    ensures AcceptsForeign(view)
  {
    assert Eightfold(0, 0) && Eightfold(96, 12);
  }

  /** One such input, one allocation after `Init`: offset 48 was never handed out and is accepted. */
  lemma SpelledHeaderAccepted()
    ensures AcceptsForeign(Headers(SpelledArena()))
  {
    var mem := SpelledArena();
    SpelledHeaders(mem);
    SpelledView(Headers(mem));
  }

  lemma OneAllocation()
    ensures HeapModel.Alloc(HeapModel.Init(96), 64, 8) == (SpelledHeap, Some(24))
  {
    assert Pow2(3) == 8;
    var s := Span(0, 96);
    RoundUpMultiple(24, 8);
    RoundUpMultiple(88, 8);
    assert Place(0, 8) == 24 && TailStart(24, 64) == 88;
    HeapModel.FirstFitIs([s], 64, 8, 0);
    assert Take([s], 0, 24, 64) == [];
    assert {} + {Carved(s, 24, 64)} == {Span(0, 96)};
  }

  /** Callers may write anything inside the payloads they own: list and headers survive. */
  lemma PayloadWritesHarmless(h: HeapModel.Heap, mem: seq<byte>, mem': seq<byte>, head: nat)
    requires HeapModel.Tiled(h) && |mem'| == |mem|
    requires Linked(Headers(mem), head, h.frees, h.len) && Tagged(Headers(mem), h.live, h.len)
    requires forall x :: 0 <= x < |mem| && !InPayload(h, x) ==> mem'[x] == mem[x]
    ensures Linked(Headers(mem'), head, h.frees, h.len) && Tagged(Headers(mem'), h.live, h.len)
  {
    forall i | 0 <= i < |h.frees|
      ensures Link(Headers(mem'), h.frees, i)
    {
      forall x | h.frees[i].start <= x < h.frees[i].start + HEADER_SIZE
        ensures mem'[x] == mem[x]
      {
        assert h.frees[i].Contains(x) && Covered(h.frees, x);
        FreeNotPayload(h, x);
      }
      SameBytesSameHeader(mem, mem', h.frees[i].start);
      assert Link(Headers(mem), h.frees, i);
    }
    forall s | s in h.live
      ensures Headers(mem')[s.start] == Headers(mem)[s.start]
    {
      forall x | s.start <= x < s.start + HEADER_SIZE
        ensures mem'[x] == mem[x]
      {
        HeaderNotPayload(h, s, x);
      }
      SameBytesSameHeader(mem, mem', s.start);
    }
  }

  ghost predicate InPayload(h: HeapModel.Heap, x: int) {
    exists s :: s in h.live && s.start + HEADER_SIZE <= x < s.End()
  }

  lemma FreeNotPayload(h: HeapModel.Heap, x: int)
    requires HeapModel.Tiled(h) && Covered(h.frees, x)
    ensures !InPayload(h, x)
  {
    HeapModel.CoveredInside(h.frees, h.len, x);
    assert forall s :: s in h.live ==> !s.Contains(x);
  }

  lemma HeaderNotPayload(h: HeapModel.Heap, s: Span, x: int)
    requires HeapModel.Tiled(h) && s in h.live && s.start <= x < s.start + HEADER_SIZE
    ensures !InPayload(h, x)
  {
    assert forall t :: t in h.live && t != s ==> Disjoint(s, t);
  }

  /** Putting `s` back leaves every other live block as it was. */
  lemma OthersUntouched(h: HeapModel.Heap, mem: seq<byte>, mem': seq<byte>, s: Span)
    requires HeapModel.Tiled(h) && |mem'| == |mem| && Tagged(Headers(mem), h.live, h.len) && s in h.live
    requires forall x :: 0 <= x < |mem| && !Covered(h.frees, x) && !s.Contains(x) ==> mem'[x] == mem[x]
    ensures Tagged(Headers(mem'), h.live - {s}, h.len)
    ensures forall x :: 0 <= x < |mem| && HeapModel.LiveCovers(h.live - {s}, x) ==> mem'[x] == mem[x]
  {
    forall x | 0 <= x < |mem| && HeapModel.LiveCovers(h.live - {s}, x)
      ensures mem'[x] == mem[x]
    {
      HeapModel.LiveCoversRemove(h, s, x);
      var t :| t in h.live - {s} && t.Contains(x);
      assert x < h.len;
    }
    forall t | t in h.live - {s}
      ensures Headers(mem')[t.start] == Headers(mem)[t.start]
    {
      forall x | t.start <= x < t.start + HEADER_SIZE
        ensures mem'[x] == mem[x]
      {
        assert t.Contains(x);
      }
      SameBytesSameHeader(mem, mem', t.start);
    }
  }

  /** Room for the merged block's header, and for that of the block before it. */
  lemma JoinedBounds(frees: seq<Span>, k: nat, s: Span, len: nat)
    requires Canonical(frees, len) && InsertPoint(frees, k, s) && HEADER_SIZE <= s.size && s.End() <= len
    ensures var m, lo := Joined(frees, k, s), JoinLow(frees, k, s);
            && m.start + HEADER_SIZE <= len && m.size <= len
            && (0 < lo ==> frees[lo - 1].start + HEADER_SIZE <= m.start)
  {
  }

  /** The merged block keeps clear of the blocks around it. */
  lemma JoinedPlace(frees: seq<Span>, k: nat, s: Span, len: nat)
    requires Canonical(frees, len) && SpanOk(s, len) && InsertPoint(frees, k, s)
    ensures var m, lo, hi := Joined(frees, k, s), JoinLow(frees, k, s), JoinHigh(frees, k, s);
            && lo <= k <= hi
            && (0 < lo ==> frees[lo - 1].End() < m.start)
            && (hi < |frees| ==> m.End() < frees[hi].start)
            && (lo < k ==> m.start == frees[lo].start) && (lo == k ==> m.start == s.start)
  {
  }

  /** Writing the header of `m` gave `parts`; linking it in after `previous` gave `view'`. */
  ghost predicate Inserted(view: seq<Header>, parts: seq<Header>, view': seq<Header>, head: nat, head': nat,
                           m: Span, current: nat, previous: nat)
  {
    && |parts| == |view'| == |view| && m.start < |parts|
    && parts[m.start] == Header(MAGIC_FREE, m.size, current)
    && (forall p :: 0 <= p < |parts| && Apart(p, m.start) ==> parts[p] == view[p])
    && Relinked(parts, view', head, head', previous, m.start)
  }

  lemma InsertLinks(view: seq<Header>, parts: seq<Header>, view': seq<Header>, head: nat, head': nat,
                    frees: seq<Span>, k: nat, s: Span, len: nat)
    requires Linked(view, head, frees, len) && len < ARENA_LIMIT
    requires InsertPoint(frees, k, s)
    requires var m, lo, hi := Joined(frees, k, s), JoinLow(frees, k, s), JoinHigh(frees, k, s);
             Inserted(view, parts, view', head, head', m, StartOf(frees, hi),
                      if lo == 0 then NONE else frees[lo - 1].start)
    ensures SpanOk(s, len) ==> Linked(view', head', InsertAt(frees, k, s), len)
  {
    var m, lo, hi := Joined(frees, k, s), JoinLow(frees, k, s), JoinHigh(frees, k, s);
    if SpanOk(s, len) {
      JoinedOk(frees, k, s, len);
      InsertAtCanonical(frees, k, s, len);
      JoinedPlace(frees, k, s, len);
      InsertRelinks(view, parts, view', head, head', frees, lo, hi, m, [m] + frees[hi..], len);
    }
  }

  /** Writing one header and then the link into it replaces a stretch of the list by that block. */
  lemma InsertRelinks(view: seq<Header>, parts: seq<Header>, view': seq<Header>, head: nat, head': nat,
                      frees: seq<Span>, lo: nat, hi: nat, m: Span, rest: seq<Span>, len: nat)
    requires Linked(view, head, frees, len) && |parts| == |view| == |view'| && len < ARENA_LIMIT
    requires lo <= hi <= |frees| && SpanOk(m, len) && rest == [m] + frees[hi..]
    requires Canonical(Splice(frees, lo, hi, [m]), len)
    requires 0 < lo ==> frees[lo - 1].End() < m.start
    requires hi < |frees| ==> m.End() < frees[hi].start
    requires parts[m.start] == Header(MAGIC_FREE, m.size, StartOf(frees, hi))
    requires forall p :: 0 <= p < |view| && Apart(p, m.start) ==> parts[p] == view[p]
    requires Relinked(parts, view', head, head', if lo == 0 then NONE else frees[lo - 1].start, m.start)
    ensures Linked(view', head', Splice(frees, lo, hi, [m]), len)
  {
    forall j | 0 <= j < lo - 1 || hi <= j < |frees|
      ensures view'[frees[j].start] == view[frees[j].start]
    {
      assert SpanOk(frees[j], len);
    }
    assert 0 < lo ==> Link(view, frees, lo - 1);
    LinkedSplice(view, view', head, head', frees, lo, hi, [m], rest, len);
  }

  datatype Admitted = Admitted(header: nat, blockSize: nat, previous: nat, current: nat)

  function Rejection(r: Result<Admitted, FreeListError>): Option<FreeListError> {
    match r
    case Ok(_) => None
    case Err(e) => Some(e)
  }

  /** Why `dealloc` refuses `offset`; nothing when it accepts. */
  ghost function Verdict(view: seq<Header>, frees: seq<Span>, len: nat, offset: nat): Option<FreeListError> {
    if offset < HEADER_SIZE || len <= offset || offset % HEADER_ALIGN != 0 || |view| <= offset - HEADER_SIZE
    then Some(OutOfArena(offset))
    else
      var h := view[offset - HEADER_SIZE];
      if h.magic == MAGIC_FREE then Some(AlreadyFree(offset))
      else if h.magic != MAGIC_ALLOC then Some(NotAllocated(offset))
      else if h.size < HEADER_SIZE || len < offset - HEADER_SIZE + h.size then Some(Corrupted(offset - HEADER_SIZE))
      else if Overlapping(frees, Span(offset - HEADER_SIZE, h.size)) then Some(AlreadyFree(offset))
      else None
  }

  ghost predicate Overlapping(frees: seq<Span>, s: Span) {
    exists i :: 0 <= i < |frees| && !Disjoint(s, frees[i])
  }

  /** The spans below `k` end at or before `start`. */
  ghost predicate EndBy(frees: seq<Span>, k: nat, start: nat) {
    k <= |frees| && forall j :: 0 <= j < k ==> frees[j].End() <= start
  }

  /** With the spans below `k` out of the way, span `k` decides. */
  lemma PlaceDecided(frees: seq<Span>, k: nat, s: Span, len: nat)
    requires Canonical(frees, len) && EndBy(frees, k, s.start) && 0 < s.size
    requires k < |frees| ==> s.start < frees[k].End()
    ensures if k < |frees| && frees[k].start < s.End() then Overlapping(frees, s)
            else InsertPoint(frees, k, s) && !Overlapping(frees, s)
  {
    if k < |frees| && frees[k].start < s.End() {
      assert !Disjoint(s, frees[k]);
    } else {
      assert forall i :: k <= i < |frees| ==> frees[k].start <= frees[i].start;
    }
  }

  /** The candidate describes block `i` of the list. */
  ghost predicate Chosen(c: Candidate, frees: seq<Span>, i: nat)
    requires i < |frees|
  {
    c == Candidate(if i == 0 then NONE else frees[i - 1].start, frees[i].start,
                      StartOf(frees, i + 1), frees[i].End(), c.payload)
  }

  /** Operations that touch free bytes only leave every live block as it was. */
  lemma LiveUntouched(h: HeapModel.Heap, mem: seq<byte>, mem': seq<byte>, added: set<Span>)
    requires HeapModel.Tiled(h) && |mem'| == |mem| && Tagged(Headers(mem), h.live, h.len)
    requires forall x :: 0 <= x < |mem| && !Covered(h.frees, x) ==> mem'[x] == mem[x]
    requires Tagged(Headers(mem'), added, h.len)
    ensures Tagged(Headers(mem'), h.live + added, h.len)
    ensures forall x :: 0 <= x < |mem| && HeapModel.LiveCovers(h.live, x) ==> mem'[x] == mem[x]
  {
    forall x | 0 <= x < |mem| && HeapModel.LiveCovers(h.live, x)
      ensures !Covered(h.frees, x)
    {
      var s :| s in h.live && s.Contains(x);
      assert x < h.len;
    }
    forall s | s in h.live
      ensures Headers(mem')[s.start] == Headers(mem)[s.start]
    {
      forall x | s.start <= x < s.start + HEADER_SIZE
        ensures mem'[x] == mem[x]
      {
        assert s.Contains(x);
      }
      SameBytesSameHeader(mem, mem', s.start);
    }
  }

  lemma TakeLinks(view: seq<Header>, parts: seq<Header>, view': seq<Header>, head: nat, head': nat,
                  c: Candidate, size: nat, newNext: nat, frees: seq<Span>, i: nat, len: nat)
    requires Linked(view, head, frees, len) && |parts| == |view| == |view'| && i < |frees| && len < ARENA_LIMIT
    requires 0 < size && Placed(frees[i], c.payload, size)
    requires c == Candidate(if i == 0 then NONE else frees[i - 1].start, frees[i].start,
                            StartOf(frees, i + 1), frees[i].End(), c.payload)
    requires c.payload <= TailStart(c.payload, size) <= c.blockEnd
    requires PartsWritten(parts, c, TailStart(c.payload, size), newNext)
    requires forall p :: 0 <= p < |view| && (p + HEADER_SIZE <= c.current || c.blockEnd <= p) ==> parts[p] == view[p]
    requires Relinked(parts, view', head, head', c.previous, newNext)
    ensures Linked(view', head', Take(frees, i, c.payload, size), len)
    ensures Tagged(view', {Carved(frees[i], c.payload, size)}, len)
  {
    var mid := Front(frees[i], c.payload) + Tail(frees[i], c.payload, size);
    PartsInList(parts, c, size, newNext, frees, i, len);
    TakeSpec(frees, i, c.payload, size, len);
    CutRelinks(view, parts, view', head, head', frees, i, mid, mid + frees[i + 1..], len);
  }

  /** The list's entry point, or the block at `previous`, now leads to `newNext`; nothing else changed. */
  ghost predicate Relinked(parts: seq<Header>, view: seq<Header>, head: nat, head': nat, previous: nat, newNext: nat) {
    if previous == NONE then head' == newNext && view == parts
    else
      && previous < |parts| == |view|
      && head' == head
      && view[previous] == Header(MAGIC_FREE, parts[previous].size, newNext)
      && (forall p :: 0 <= p < |parts| && Apart(p, previous) ==> view[p] == parts[p])
  }

  /** Rewriting inside block `i` and then the link into it replaces that block by `mid`. */
  lemma CutRelinks(view: seq<Header>, parts: seq<Header>, view': seq<Header>, head: nat, head': nat,
                   frees: seq<Span>, i: nat, mid: seq<Span>, rest: seq<Span>, len: nat)
    requires Linked(view, head, frees, len) && |parts| == |view| == |view'| && i < |frees| && len < ARENA_LIMIT
    requires Canonical(mid, len) && Canonical(Splice(frees, i, i + 1, mid), len) && rest == mid + frees[i + 1..]
    requires forall j :: 0 <= j < |mid| ==> frees[i].start <= mid[j].start
    requires forall p :: 0 <= p < |view| && (p + HEADER_SIZE <= frees[i].start || frees[i].End() <= p) ==>
                         parts[p] == view[p]
    requires forall j :: 0 <= j < |mid| ==>
                         parts[mid[j].start] == Header(MAGIC_FREE, mid[j].size, StartOf(rest, j + 1))
    requires Relinked(parts, view', head, head', if i == 0 then NONE else frees[i - 1].start, StartOf(rest, 0))
    ensures Linked(view', head', Splice(frees, i, i + 1, mid), len)
  {
    forall j | 0 <= j < i - 1 || i < j < |frees|
      ensures view'[frees[j].start] == view[frees[j].start]
    {
      CutSpares(view, parts, view', head, head', StartOf(rest, 0), frees, i, j, len);
    }
    forall j | 0 <= j < |mid|
      ensures view'[mid[j].start] == parts[mid[j].start]
    {
      assert SpanOk(mid[j], len);
    }
    assert 0 < i ==> Link(view, frees, i - 1);
    LinkedSplice(view, view', head, head', frees, i, i + 1, mid, rest, len);
  }

  lemma CutSpares(view: seq<Header>, parts: seq<Header>, view': seq<Header>, head: nat, head': nat, newNext: nat,
                  frees: seq<Span>, i: nat, j: nat, len: nat)
    requires Canonical(frees, len) && len < |view| + HEADER_SIZE && len < ARENA_LIMIT
    requires |parts| == |view| == |view'| && i < |frees| && (j < i - 1 || i < j < |frees|)
    requires forall p :: 0 <= p < |view| && (p + HEADER_SIZE <= frees[i].start || frees[i].End() <= p) ==>
                         parts[p] == view[p]
    requires Relinked(parts, view', head, head', if i == 0 then NONE else frees[i - 1].start, newNext)
    ensures view'[frees[j].start] == view[frees[j].start]
  {
    assert SpanOk(frees[j], len);
  }

  /** The headers written by an allocation are the links its leftovers need. */
  lemma PartsInList(view: seq<Header>, c: Candidate, size: nat, newNext: nat, frees: seq<Span>, i: nat, len: nat)
    requires Canonical(frees, len) && len < |view| + HEADER_SIZE
    requires i < |frees| && 0 < size && Placed(frees[i], c.payload, size)
    requires c.current == frees[i].start && c.blockEnd == frees[i].End() && c.next == StartOf(frees, i + 1)
    requires c.payload <= TailStart(c.payload, size) <= c.blockEnd
    requires PartsWritten(view, c, TailStart(c.payload, size), newNext)
    ensures var mid := Front(frees[i], c.payload) + Tail(frees[i], c.payload, size);
            && (forall j :: 0 <= j < |mid| ==>
                  SpanOk(mid[j], len)
                  && view[mid[j].start] == Header(MAGIC_FREE, mid[j].size, StartOf(mid + frees[i + 1..], j + 1)))
            && newNext == StartOf(mid + frees[i + 1..], 0)
            && Canonical(mid, len)
            && (forall j :: 0 <= j < |mid| ==> frees[i].start <= mid[j].start && mid[j].End() <= frees[i].End())
    ensures SpanOk(Carved(frees[i], c.payload, size), len)
    ensures Tagged(view, {Carved(frees[i], c.payload, size)}, len)
  {
    CarvedOk(frees[i], c.payload, size, len);
    FrontOk(frees[i], c.payload, size, len);
    TailOk(frees[i], c.payload, size, len);
    LeftoverTiles(frees[i], c.payload, size, len);
  }

  /** The headers an allocation writes inside the free block it uses. */
  ghost predicate PartsWritten(view: seq<Header>, c: Candidate, tailStart: nat, newNext: nat)
    requires c.current + HEADER_SIZE <= c.payload <= tailStart <= c.blockEnd < |view| + HEADER_SIZE
  {
    var header := c.payload - HEADER_SIZE;
    var split := tailStart + MIN_BLOCK <= c.blockEnd;
    var afterFront := if split then tailStart else c.next;
    && view[header] == Header(MAGIC_ALLOC, (if split then tailStart else c.blockEnd) - header, NONE)
    && (split ==> view[tailStart] == Header(MAGIC_FREE, c.blockEnd - tailStart, c.next))
    && (if c.current < header
        then newNext == c.current && view[c.current] == Header(MAGIC_FREE, header - c.current, afterFront)
        else newNext == afterFront)
  }

  /** Where the addition overflows, no block further on can fit either. */
  lemma TooLarge(frees: seq<Span>, size: nat, align: nat, i: nat, len: nat)
    requires Canonical(frees, len) && len < ARENA_LIMIT && i < |frees| && ValidRequest(size, align)
    requires NoneFits(frees, i, size, align) && Place(frees[i].start, align) + size >= U64_LIMIT
    ensures NoneFits(frees, |frees|, size, align)
  {
    assert forall j :: i <= j < |frees| ==> frees[i].start <= frees[j].start;
  }

  /** The payload offset, unless the addition of the size overflows. */
  method PlaceChecked(current: nat, align: nat, size: nat) returns (r: Option<nat>)
    requires current < ARENA_LIMIT && ValidRequest(size, align)
    ensures r == if Place(current, align) + size < U64_LIMIT then Some(Place(current, align)) else None
  {
    var payloadMin := current + HEADER_SIZE;
    var aligned := AlignUp(payloadMin, align);
    if aligned.None? {
      return None;
    }
    var payload := aligned.value;
    if 0 < payload - payloadMin < MIN_BLOCK {
      aligned := AlignUp(payloadMin + MIN_BLOCK, align);
      if aligned.None? {
        return None;
      }
      payload := aligned.value;
    }
    if payload + size >= U64_LIMIT {
      return None;
    }
    return Some(payload);
  }
}

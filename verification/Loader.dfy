/** Loading an image segment by segment into physical memory. */
module Loader {
  import opened Image
  import opened LittleEndian
  import opened MemoryMap
  import opened Wrappers

  const MAX_KERNEL_PAGES: nat := 256

  datatype LoadError = SegmentFault(error: SegmentError) | TooManyPages(pages: nat) | PageRefused(page: nat)

  datatype LoadedImage = LoadedImage(base: nat, size: nat, entry: nat, segments: nat, vaddrDelta: int)

  /** Physical memory and the firmware that hands out chosen pages of it, each at most once. */
  class Firmware {
    const memory: array<byte>
    var available: set<nat>
    var requested: seq<nat>

    ghost predicate Valid()
      reads this
    {
      forall p :: p in available ==> p + PAGE_SIZE <= memory.Length
    }

    constructor (size: nat, available: set<nat>)
      requires forall p :: p in available ==> p + PAGE_SIZE <= size
      ensures Valid() && fresh(memory) && memory.Length == size && this.available == available && requested == []
    {
      memory := new byte[size](_ => 0);
      this.available, requested := available, [];
    }

    method AllocatePage(page: nat) returns (ok: bool)
      requires Valid()
      modifies this
      ensures Valid() && requested == old(requested) + [page] && available == old(available) - {page}
      ensures ok <==> page in old(available)
    {
      ok := page in available;
      requested, available := requested + [page], available - {page};
    }
  }

  /** The byte a segment prescribes: from the file, or zero past the file's part. */
  function SegmentByte(data: seq<byte>, s: Segment, a: nat): byte
    requires Complaint(data, s).None? && s.Contains(a)
  {
    if a - s.paddr < s.filesz then data[s.offset + (a - s.paddr)] else 0
  }

  predicate NeedsPage(s: Segment, p: nat) {
    p % PAGE_SIZE == 0 && s.PageStart() <= p < s.PageEnd()
  }

  ghost predicate Needed(segments: seq<Segment>, p: nat) {
    exists i :: 0 <= i < |segments| && NeedsPage(segments[i], p)
  }

  ghost predicate NoRepeats(pages: seq<nat>) {
    forall i, j :: 0 <= i < j < |pages| ==> pages[i] != pages[j]
  }

  /** Memory after the first `n` segments were laid over `before`, in order. */
  function Overlay(data: seq<byte>, segments: seq<Segment>, n: nat, before: seq<byte>, a: nat): byte
    requires n <= |segments| && Sound(data, segments) && a < |before|
  {
    if n == 0 then before[a]
    else if segments[n - 1].Contains(a) then SegmentByte(data, segments[n - 1], a)
    else Overlay(data, segments, n - 1, before, a)
  }

  /** Because segments do not overlap, none of them spoils another. */
  lemma {:induction false} SegmentIntact(data: seq<byte>, segments: seq<Segment>, n: nat, before: seq<byte>,
                                         i: nat, a: nat)
    requires i < n <= |segments| && Sound(data, segments) && Apart(segments) && a < |before| && segments[i].Contains(a)
    ensures Overlay(data, segments, n, before, a) == SegmentByte(data, segments[i], a)
  {
    if i == n - 1 {
    } else {
      assert ApartAt(segments, i, n - 1);
      SegmentIntact(data, segments, n - 1, before, i, a);
    }
  }

  // ----- one segment -----

  method CopySegment(fw: Firmware, data: seq<byte>, s: Segment)
    requires Complaint(data, s).None? && s.End() <= fw.memory.Length
    modifies fw.memory
    ensures forall a :: 0 <= a < fw.memory.Length ==>
                        fw.memory[a] == if s.Contains(a) then SegmentByte(data, s, a) else old(fw.memory[a])
  {
    for k := 0 to s.filesz
      invariant forall a :: 0 <= a < fw.memory.Length ==>
                            fw.memory[a]
                            == if s.paddr <= a < s.paddr + k then SegmentByte(data, s, a) else old(fw.memory[a])
    {
      fw.memory[s.paddr + k] := data[s.offset + k];
    }
    for k := s.filesz to s.memsz
      invariant forall a :: 0 <= a < fw.memory.Length ==>
                            fw.memory[a]
                            == if s.paddr <= a < s.paddr + k then SegmentByte(data, s, a) else old(fw.memory[a])
    {
      fw.memory[s.paddr + k] := 0;
    }
  }

  method Contains(taken: array<nat>, len: nat, page: nat) returns (found: bool)
    requires len <= taken.Length
    ensures found <==> page in taken[..len]
  {
    for i := 0 to len
      invariant page !in taken[..i]
    {
      if taken[i] == page {
        return true;
      }
    }
    return false;
  }

  /** Pages claimed so far: asked for once each, granted from `pool` and no longer available, all real memory. */
  ghost predicate Claimed(fw: Firmware, pool: set<nat>, taken: array<nat>, len: nat)
    reads fw, taken
  {
    && len <= taken.Length == MAX_KERNEL_PAGES && NoRepeats(taken[..len]) && fw.available <= pool
    && (forall p :: p in pool ==> p in fw.available || p in taken[..len])
    && forall p :: p in taken[..len] ==> p in pool && p !in fw.available && p + PAGE_SIZE <= fw.memory.Length
  }

  /** Asks for a page unless it was claimed before. */
  method ClaimPage(fw: Firmware, ghost pool: set<nat>, ghost start: seq<nat>, taken: array<nat>, len: nat, page: nat)
    returns (len': nat, error: Option<LoadError>)
    requires fw.Valid() && Claimed(fw, pool, taken, len) && fw.requested == start + taken[..len]
    modifies fw, taken
    ensures fw.Valid() && Claimed(fw, pool, taken, len')
    ensures taken[..len'] == old(taken[..len]) + if error.None? && page !in old(taken[..len]) then [page] else []
    ensures error.None? ==> fw.requested == start + taken[..len']
    ensures error.Some? ==> len' == len && page !in taken[..len]
    ensures error.Some? ==> match error.value
                            case TooManyPages(n) => n == MAX_KERNEL_PAGES + 1 && len == MAX_KERNEL_PAGES
                                                    && fw.requested == start + taken[..len]
                            case PageRefused(p) => p == page && p !in pool && fw.requested == start + taken[..len] + [p]
                            case SegmentFault(_) => false
  {
    len', error := len, None;
    var known := Contains(taken, len, page);
    if !known {
      if len == taken.Length {
        return len, Some(TooManyPages(len + 1));
      }
      var ok := fw.AllocatePage(page);
      if !ok {
        return len, Some(PageRefused(page));
      }
      taken[len] := page;
      len' := len + 1;
      assert taken[..len'] == old(taken[..len]) + [page];
    }
  }

  lemma NextPage(p: nat, page: nat)
    requires p % PAGE_SIZE == 0 && page % PAGE_SIZE == 0 && p < page + PAGE_SIZE
    ensures p <= page
  {
  }

  /** Beyond the pages taken before, those of the segment below `page` and no others are. */
  ghost predicate TakenBelow(before: seq<nat>, after: seq<nat>, s: Segment, page: nat) {
    forall p: nat :: p in after <==> p in before || (NeedsPage(s, p) && p < page)
  }

  lemma OneMorePage(before: seq<nat>, was: seq<nat>, after: seq<nat>, s: Segment, page: nat)
    requires TakenBelow(before, was, s, page) && NeedsPage(s, page)
    requires after == was + if page !in was then [page] else []
    ensures TakenBelow(before, after, s, page + PAGE_SIZE) && (page + PAGE_SIZE) % PAGE_SIZE == 0
  {
    forall p: nat | NeedsPage(s, p) && p < page + PAGE_SIZE ensures p <= page {
      NextPage(p, page);
    }
  }

  /** Claims the pages of one segment that no earlier segment has claimed. */
  method ClaimPages(fw: Firmware, ghost pool: set<nat>, ghost start: seq<nat>, taken: array<nat>, len: nat, s: Segment)
    returns (len': nat, error: Option<LoadError>)
    requires fw.Valid() && Claimed(fw, pool, taken, len) && fw.requested == start + taken[..len]
    modifies fw, taken
    ensures fw.Valid() && Claimed(fw, pool, taken, len')
    ensures forall p :: p in taken[..len'] ==> p in old(taken[..len]) || NeedsPage(s, p)
    ensures forall p :: p in old(taken[..len]) ==> p in taken[..len']
    ensures error.None? ==> fw.requested == start + taken[..len']
    ensures error.None? ==> forall p: nat :: p in taken[..len'] <==> p in old(taken[..len]) || NeedsPage(s, p)
    ensures error.Some? ==> match error.value
                            case TooManyPages(n) => && n == MAX_KERNEL_PAGES + 1 && len' == MAX_KERNEL_PAGES
                                                    && exists p :: NeedsPage(s, p) && p !in taken[..len']
                            case PageRefused(p) => NeedsPage(s, p) && p !in taken[..len'] && p !in pool
                            case SegmentFault(_) => false
  {
    var page := s.PageStart();
    len', error := len, None;
    while page < s.PageEnd()
      invariant fw.Valid() && Claimed(fw, pool, taken, len') && fw.requested == start + taken[..len']
      invariant error.None? && page % PAGE_SIZE == 0 && s.PageStart() <= page
      invariant TakenBelow(old(taken[..len]), taken[..len'], s, page)
    {
      ghost var was := taken[..len'];
      assert NeedsPage(s, page);
      len', error := ClaimPage(fw, pool, start, taken, len', page);
      if error.Some? {
        return;
      }
      OneMorePage(old(taken[..len]), was, taken[..len'], s, page);
      page := page + PAGE_SIZE;
    }
  }

  // ----- the whole image -----

  /** Every page a segment needs being real memory, so is the segment, and its bytes lie in those pages. */
  lemma InsidePages(s: Segment, size: nat, pages: seq<nat>)
    requires 0 < s.memsz && forall p: nat :: NeedsPage(s, p) ==> p in pages
    requires forall p :: p in pages ==> p + PAGE_SIZE <= size
    ensures s.End() <= size
    ensures forall a: nat :: s.Contains(a) ==> a / PAGE_SIZE * PAGE_SIZE in pages
  {
    LastPage(s);
    forall a: nat | s.Contains(a) ensures a / PAGE_SIZE * PAGE_SIZE in pages {
      PageInside(s, a);
    }
  }

  lemma PageInside(s: Segment, a: nat)
    requires s.Contains(a)
    ensures NeedsPage(s, a / PAGE_SIZE * PAGE_SIZE)
  {
  }

  /** Memory is changed only inside claimed pages. */
  ghost predicate Confined(memory: seq<byte>, before: seq<byte>, pages: seq<nat>) {
    && |memory| == |before|
    && forall a :: 0 <= a < |memory| && a / PAGE_SIZE * PAGE_SIZE !in pages ==> memory[a] == before[a]
  }

  ghost predicate Overlaid(data: seq<byte>, segments: seq<Segment>, n: nat, memory: seq<byte>, before: seq<byte>)
    requires n <= |segments| && Sound(data, segments)
  {
    && |memory| == |before|
    && forall a :: 0 <= a < |memory| ==> memory[a] == Overlay(data, segments, n, before, a)
  }

  /** The first `n` segments are in place: their pages claimed, their bytes written, nothing else touched. */
  ghost predicate LoadedUpTo(fw: Firmware, data: seq<byte>, all: seq<Segment>, n: nat, pool: set<nat>, start: seq<nat>,
                             before: seq<byte>, taken: array<nat>, len: nat)
    requires Sound(data, all)
    reads fw, fw.memory, taken
  {
    && n <= |all| && fw.Valid() && Claimed(fw, pool, taken, len) && fw.requested == start + taken[..len]
    && (forall p: nat :: p in taken[..len] <==> Needed(all[..n], p))
    && Overlaid(data, all, n, fw.memory[..], before) && Confined(fw.memory[..], before, taken[..len])
  }

  /** Short of that, a failure leaves at least this. */
  ghost predicate Stopped(fw: Firmware, all: seq<Segment>, pool: set<nat>, before: seq<byte>,
                          taken: array<nat>, len: nat, error: LoadError)
    reads fw, fw.memory, taken
  {
    && fw.Valid() && Claimed(fw, pool, taken, len) && Confined(fw.memory[..], before, taken[..len])
    && (forall p :: p in taken[..len] ==> Needed(all, p))
    && match error
       case TooManyPages(k) => && k == MAX_KERNEL_PAGES + 1 && len == MAX_KERNEL_PAGES
                               && exists p :: Needed(all, p) && p !in taken[..len]
       case PageRefused(p) => Needed(all, p) && p !in taken[..len] && p !in pool
       case SegmentFault(_) => false
  }

  /** Claims and fills segment `n`. */
  method LoadSegment(fw: Firmware, data: seq<byte>, ghost all: seq<Segment>, ghost n: nat, s: Segment,
                     ghost pool: set<nat>, ghost start: seq<nat>, ghost before: seq<byte>, taken: array<nat>, len: nat)
    returns (len': nat, error: Option<LoadError>)
    requires n < |all| && all[n] == s && Sound(data, all)
    requires LoadedUpTo(fw, data, all, n, pool, start, before, taken, len)
    modifies fw, fw.memory, taken
    ensures error.None? ==> LoadedUpTo(fw, data, all, n + 1, pool, start, before, taken, len')
    ensures error.Some? ==> Stopped(fw, all, pool, before, taken, len', error.value)
  {
    ghost var was := fw.memory[..];
    AllNeeded(all, n, taken[..len]);
    len', error := ClaimPages(fw, pool, start, taken, len, s);
    assert fw.memory[..] == was;
    NeedsMore(all, n);
    if error.None? {
      InsidePages(s, fw.memory.Length, taken[..len']);
      CopySegment(fw, data, s);
    }
  }

  lemma NeedsMore(all: seq<Segment>, n: nat)
    requires n < |all|
    ensures forall p: nat :: Needed(all[..n + 1], p) <==> Needed(all[..n], p) || NeedsPage(all[n], p)
    ensures forall p: nat :: NeedsPage(all[n], p) ==> Needed(all, p)
  {
    forall p: nat ensures Needed(all[..n + 1], p) <==> Needed(all[..n], p) || NeedsPage(all[n], p) {
      NeededMore(all, n, p);
    }
  }

  lemma NeededMore(all: seq<Segment>, n: nat, p: nat)
    requires n < |all|
    ensures Needed(all[..n + 1], p) <==> Needed(all[..n], p) || NeedsPage(all[n], p)
  {
    assert all[..n + 1] == all[..n] + [all[n]];
    if Needed(all[..n], p) {
      var i :| 0 <= i < n && NeedsPage(all[..n][i], p);
      assert all[..n + 1][i] == all[..n][i];
    }
    assert all[..n + 1][n] == all[n];
  }

  /** One turn of the loop below: `more` while there was a segment to load. */
  method LoadNext(fw: Firmware, data: seq<byte>, iter: SegmentIter, ghost all: seq<Segment>, ghost n: nat,
                  ghost pool: set<nat>, ghost start: seq<nat>, ghost before: seq<byte>, taken: array<nat>, len: nat)
    returns (len': nat, more: bool, error: Option<LoadError>)
    requires ImageTrace(data) == Trace(all, false) && Sound(data, all)
    requires LoadedUpTo(fw, data, all, n, pool, start, before, taken, len) && Progress(data, all[..n], iter.Left())
    modifies fw, fw.memory, taken, iter
    ensures error.Some? ==> Stopped(fw, all, pool, before, taken, len', error.value)
    ensures error.None? ==>
              if more
              then && n < |all| && LoadedUpTo(fw, data, all, n + 1, pool, start, before, taken, len')
                   && Progress(data, all[..n + 1], iter.Left()) && iter.remaining < old(iter.remaining)
              else n == |all| && LoadedUpTo(fw, data, all, n, pool, start, before, taken, len')
  {
    var next := iter.Next();
    if next.None? {
      return len, false, None;
    }
    if next.value.Err? {
      return len, false, Some(SegmentFault(BadProgramHeaders));
    }
    var s := next.value.value;
    OneMore(data, all[..n], s, iter.Left());
    assert all[..n + 1] == all[..n] + [s];
    len', error := LoadSegment(fw, data, all, n, s, pool, start, before, taken, len);
    more := true;
  }

  /** The segment loop. */
  method LoadSegments(fw: Firmware, data: seq<byte>) returns (error: Option<LoadError>, taken: array<nat>, len: nat)
    requires fw.Valid() && !ImageTrace(data).broken && Sound(data, ImageTrace(data).segments)
    modifies fw, fw.memory
    ensures var all := ImageTrace(data).segments;
            if error.None?
            then LoadedUpTo(fw, data, all, |all|, old(fw.available), old(fw.requested), old(fw.memory[..]), taken, len)
            else Stopped(fw, all, old(fw.available), old(fw.memory[..]), taken, len, error.value)
  {
    var iter := new SegmentIter(data);
    taken := new nat[MAX_KERNEL_PAGES](_ => 0);
    len := 0;
    ghost var all, n: nat := ImageTrace(data).segments, 0;
    ghost var before, start, pool := fw.memory[..], fw.requested, fw.available;
    var more := true;
    while more
      invariant fresh(taken) && LoadedUpTo(fw, data, all, n, pool, start, before, taken, len)
      invariant if more then Progress(data, all[..n], iter.Left()) else n == |all|
      decreases more, iter.remaining
    {
      len, more, error := LoadNext(fw, data, iter, all, n, pool, start, before, taken, len);
      if error.Some? {
        return;
      }
      if more {
        n := n + 1;
      }
    }
    error := None;
  }

  lemma AllNeeded(all: seq<Segment>, n: nat, pages: seq<nat>)
    requires n <= |all| && forall p :: p in pages ==> Needed(all[..n], p)
    ensures forall p :: p in pages ==> Needed(all, p)
  {
    forall p | p in pages ensures Needed(all, p) {
      var i :| 0 <= i < n && NeedsPage(all[..n][i], p);
      assert NeedsPage(all[i], p);
    }
  }

  // ----- checks, then loading -----

  /** Every byte of every segment stands in memory as the file prescribes. */
  ghost predicate InPlace(memory: seq<byte>, data: seq<byte>, segments: seq<Segment>)
    requires Sound(data, segments)
  {
    forall i: nat, a: nat :: i < |segments| ==> ByteInPlace(memory, data, segments[i], a)
  }

  ghost predicate ByteInPlace(memory: seq<byte>, data: seq<byte>, s: Segment, a: nat)
    requires Complaint(data, s).None?
  {
    s.Contains(a) ==> a < |memory| && memory[a] == SegmentByte(data, s, a)
  }

  lemma OverlaidInPlace(data: seq<byte>, segments: seq<Segment>, memory: seq<byte>, before: seq<byte>)
    requires Sound(data, segments) && Apart(segments) && Overlaid(data, segments, |segments|, memory, before)
    requires forall i :: 0 <= i < |segments| ==> segments[i].End() <= |memory|
    ensures InPlace(memory, data, segments)
  {
    forall i: nat, a: nat | i < |segments| ensures ByteInPlace(memory, data, segments[i], a) {
      if segments[i].Contains(a) {
        SegmentIntact(data, segments, |segments|, before, i, a);
      }
    }
  }

  /** A 64-bit address read as a signed number. */
  function AsI64(x: nat): int {
    if x < U64_LIMIT / 2 then x else x - U64_LIMIT
  }

  /** What the loader reports about an image that passes every check. */
  ghost predicate Describes(image: LoadedImage, data: seq<byte>) {
    var all := ImageTrace(data).segments;
    && !ImageTrace(data).broken && all != [] && Sound(data, all) && LaidOut(all)
    && IsSpan(all, image.base, image.base + image.size)
    && image.entry == Field(data, 24, 8) && EntryIn(all, image.entry)
    && image.segments == |all| && image.vaddrDelta == AsI64(all[0].vaddr) - AsI64(all[0].paddr)
  }

  /** What every check together accepts. */
  ghost predicate Acceptable(data: seq<byte>) {
    var all := ImageTrace(data).segments;
    && !ImageTrace(data).broken && all != [] && Sound(data, all) && LaidOut(all)
    && EntryFound(all, Field(data, 24, 8))
  }

  /** The checks, in their order; memory is not touched yet. */
  method Inspect(data: seq<byte>) returns (r: Result<LoadedImage, SegmentError>)
    ensures r.Ok? ==> Describes(r.value, data)
    ensures r.Ok? <==> Acceptable(data)
  {
    var entry := Field(data, 24, 8);
    var count := CheckSegments(data);
    if count.Err? {
      return Err(count.error);
    }
    var layout := CheckNoOverlap(data);
    if layout.Err? {
      return Err(layout.error);
    }
    var inside := CheckEntry(data, entry);
    if inside.Err? {
      return Err(inside.error);
    }
    var span := LoadedSpan(data);
    if span.Err? {
      return Err(BadProgramHeaders);
    }
    var delta := FirstDelta(data);
    SpanOrdered(ImageTrace(data).segments, span.value.0, span.value.1);
    return Ok(LoadedImage(span.value.0, span.value.1 - span.value.0, entry, count.value, delta));
  }

  /** How far the first segment is linked from where it is loaded. */
  method FirstDelta(data: seq<byte>) returns (delta: int)
    requires HeaderOk(data) && ImageTrace(data).segments != []
    ensures var first := ImageTrace(data).segments[0]; delta == AsI64(first.vaddr) - AsI64(first.paddr)
  {
    var iter := new SegmentIter(data);
    var first := iter.Next();
    var s := first.value.value;
    delta := AsI64(s.vaddr) - AsI64(s.paddr);
  }

  lemma SpanOrdered(segments: seq<Segment>, lo: nat, hi: nat)
    requires IsSpan(segments, lo, hi)
    ensures lo <= hi
  {
    var i :| 0 <= i < |segments| && segments[i].PageStart() == lo;
    assert segments[i].PageStart() <= segments[i].PageEnd();
  }

  /** Page-rounded segment ends fit in 64 bits. */
  ghost predicate EndsFit(segments: seq<Segment>) {
    forall i :: 0 <= i < |segments| ==> segments[i].PageEnd() < U64_LIMIT
  }

  /** The image is loaded: exactly the covering pages, all inside the reported span, hold every segment's bytes. */
  ghost predicate Landed(image: LoadedImage, data: seq<byte>, pages: seq<nat>, memory: seq<byte>) {
    && Describes(image, data)
    && (forall p: nat :: p in pages <==> Needed(ImageTrace(data).segments, p))
    && (forall p :: p in pages ==> image.base <= p && p + PAGE_SIZE <= image.base + image.size)
    && InPlace(memory, data, ImageTrace(data).segments) && image.base + image.size <= |memory|
  }

  lemma Lands(image: LoadedImage, data: seq<byte>, pages: seq<nat>, memory: seq<byte>, before: seq<byte>)
    requires Describes(image, data) && Overlaid(data, ImageTrace(data).segments, image.segments, memory, before)
    requires forall p: nat :: p in pages <==> Needed(ImageTrace(data).segments[..image.segments], p)
    requires forall p :: p in pages ==> p + PAGE_SIZE <= |memory|
    ensures Landed(image, data, pages, memory)
  {
    var all := ImageTrace(data).segments;
    assert all[..|all|] == all;
    WithinMemory(data, all, pages, |memory|);
    OverlaidInPlace(data, all, memory, before);
    PagesInSpan(all, pages, image.base, image.base + image.size);
    SpanInMemory(data, all, pages, image.base, image.base + image.size, |memory|);
  }

  /**
   Loads an image whose page-rounded segment ends fit in 64 bits. Success means that each covering
   page was requested exactly once, that nothing outside them was written, and that every segment's
   file bytes and zeroed tail stand in memory.
   */
  method Load(fw: Firmware, data: seq<byte>) returns (r: Result<LoadedImage, LoadError>, ghost pages: seq<nat>)
    requires fw.Valid() && EndsFit(ImageTrace(data).segments)
    modifies fw, fw.memory
    ensures NoRepeats(pages) && |pages| <= MAX_KERNEL_PAGES && Confined(fw.memory[..], old(fw.memory[..]), pages)
    ensures fw.Valid() && forall p :: p in pages ==> p in old(fw.available) && p !in fw.available
    ensures forall p :: p in old(fw.available) ==> p in fw.available || p in pages
    ensures forall p :: p in pages ==> Needed(ImageTrace(data).segments, p)
    ensures r.Ok? ==> Landed(r.value, data, pages, fw.memory[..]) && fw.requested == old(fw.requested) + pages
    ensures r.Err? ==> match r.error
                       case TooManyPages(n) => && n == MAX_KERNEL_PAGES + 1 && |pages| == MAX_KERNEL_PAGES
                                               && exists p :: Needed(ImageTrace(data).segments, p) && p !in pages
                       case PageRefused(p) => Needed(ImageTrace(data).segments, p) && p !in old(fw.available)
                       case SegmentFault(_) => !Acceptable(data) && fw.requested == old(fw.requested) && pages == []
  {
    var image := Inspect(data);
    if image.Err? {
      return Err(SegmentFault(image.error)), [];
    }
    ghost var before := fw.memory[..];
    var error, taken, len := LoadSegments(fw, data);
    pages := taken[..len];
    if error.Some? {
      return Err(error.value), pages;
    }
    Lands(image.value, data, pages, fw.memory[..], before);
    r := Ok(image.value);
  }

  lemma WithinMemory(data: seq<byte>, all: seq<Segment>, pages: seq<nat>, size: nat)
    requires Sound(data, all) && forall p: nat :: p in pages <==> Needed(all, p)
    requires forall p :: p in pages ==> p + PAGE_SIZE <= size
    ensures forall i :: 0 <= i < |all| ==> all[i].End() <= size
  {
    forall i | 0 <= i < |all| ensures all[i].End() <= size {
      InsidePages(all[i], size, pages);
    }
  }

  lemma PagesInSpan(all: seq<Segment>, pages: seq<nat>, lo: nat, hi: nat)
    requires IsSpan(all, lo, hi) && forall p :: p in pages ==> Needed(all, p)
    ensures forall p :: p in pages ==> lo <= p && p + PAGE_SIZE <= hi
  {
    forall p | p in pages ensures lo <= p && p + PAGE_SIZE <= hi {
      var i :| 0 <= i < |all| && NeedsPage(all[i], p);
      WholePage(all[i], p);
    }
  }

  lemma SpanInMemory(data: seq<byte>, all: seq<Segment>, pages: seq<nat>, lo: nat, hi: nat, size: nat)
    requires Sound(data, all) && IsSpan(all, lo, hi) && forall p: nat :: Needed(all, p) ==> p in pages
    requires forall p :: p in pages ==> p + PAGE_SIZE <= size
    ensures hi <= size
  {
    var i :| 0 <= i < |all| && all[i].PageEnd() == hi;
    assert Complaint(data, all[i]).None?;
    LastPage(all[i]);
    assert Needed(all, hi - PAGE_SIZE);
  }

  lemma LastPage(s: Segment)
    requires 0 < s.memsz
    ensures PAGE_SIZE <= s.PageEnd() && NeedsPage(s, s.PageEnd() - PAGE_SIZE)
  {
  }

  /** The pages a segment needs are exactly those that hold one of its bytes. */
  lemma NeedsIff(s: Segment, p: nat)
    requires 0 < s.memsz && p % PAGE_SIZE == 0
    ensures NeedsPage(s, p) <==> exists a: nat :: s.Contains(a) && p <= a < p + PAGE_SIZE
  {
    if NeedsPage(s, p) {
      var a := if p < s.paddr then s.paddr else p;
      FirstByte(s, p);
      assert s.Contains(a);
    }
    if a: nat :| s.Contains(a) && p <= a < p + PAGE_SIZE {
      PageInside(s, a);
      OnePage(a, p);
    }
  }

  lemma FirstByte(s: Segment, p: nat)
    requires 0 < s.memsz && NeedsPage(s, p)
    ensures p < s.End() && s.paddr < p + PAGE_SIZE
  {
  }

  lemma OnePage(a: nat, p: nat)
    requires p % PAGE_SIZE == 0 && p <= a < p + PAGE_SIZE
    ensures a / PAGE_SIZE * PAGE_SIZE == p
  {
  }

  lemma WholePage(s: Segment, p: nat)
    requires NeedsPage(s, p)
    ensures s.PageStart() <= p && p + PAGE_SIZE <= s.PageEnd()
  {
  }

  /** Bytes whose page another load did not claim are as they were. */
  lemma StillInPlace(memory: seq<byte>, after: seq<byte>, data: seq<byte>, segments: seq<Segment>,
                     mine: seq<nat>, others: seq<nat>)
    requires Sound(data, segments) && InPlace(memory, data, segments) && Confined(after, memory, others)
    requires (forall p: nat :: Needed(segments, p) ==> p in mine) && forall p :: p in mine ==> p !in others
    ensures InPlace(after, data, segments)
  {
    forall i: nat, a: nat | i < |segments| ensures ByteInPlace(after, data, segments[i], a) {
      assert ByteInPlace(memory, data, segments[i], a);
      if segments[i].Contains(a) {
        PageInside(segments[i], a);
        assert Needed(segments, a / PAGE_SIZE * PAGE_SIZE);
      }
    }
  }

  ghost predicate CoveredBy(segments: seq<Segment>, pages: set<nat>) {
    forall p: nat :: Needed(segments, p) ==> p in pages
  }

  /** At most as many pages as the loader records, all of them to be had. */
  ghost predicate PagesToHave(available: set<nat>, segments: seq<Segment>) {
    exists pages: set<nat> :: CoveredBy(segments, pages) && |pages| <= MAX_KERNEL_PAGES && pages <= available
  }

  /** Two acceptable images that want different pages. */
  ghost predicate BothLoadable(available: set<nat>, kernel: seq<byte>, user: seq<byte>) {
    && Acceptable(kernel) && Acceptable(user)
    && PagesToHave(available, ImageTrace(kernel).segments) && PagesToHave(available, ImageTrace(user).segments)
    && forall p: nat :: Needed(ImageTrace(kernel).segments, p) ==> !Needed(ImageTrace(user).segments, p)
  }

  lemma {:induction false} CountDistinct(pages: seq<nat>, all: set<nat>)
    requires NoRepeats(pages) && forall i :: 0 <= i < |pages| ==> pages[i] in all
    ensures |pages| <= |all|
  {
    if pages == [] {
    } else {
      var last := pages[|pages| - 1];
      CountDistinct(pages[..|pages| - 1], all - {last});
    }
  }

  /** Then loading does not fail. */
  lemma LoadsIf(available: set<nat>, data: seq<byte>, pages: seq<nat>, error: LoadError)
    requires NoRepeats(pages) && forall p :: p in pages ==> Needed(ImageTrace(data).segments, p)
    requires match error
             case TooManyPages(_) => && |pages| == MAX_KERNEL_PAGES
                                     && exists p :: Needed(ImageTrace(data).segments, p) && p !in pages
             case PageRefused(p) => Needed(ImageTrace(data).segments, p) && p !in available
             case SegmentFault(_) => !Acceptable(data)
    ensures !(Acceptable(data) && PagesToHave(available, ImageTrace(data).segments))
  {
    var segments := ImageTrace(data).segments;
    if error.TooManyPages? && PagesToHave(available, segments) {
      var all: set<nat> :| CoveredBy(segments, all) && |all| <= MAX_KERNEL_PAGES && all <= available;
      var p :| Needed(segments, p) && p !in pages;
      CountDistinct(pages, all - {p});
    }
  }

  /** Loading one image leaves what another needs. */
  lemma StillToHave(before: set<nat>, after: set<nat>, segments: seq<Segment>, pages: seq<nat>)
    requires PagesToHave(before, segments) && forall p :: p in before ==> p in after || p in pages
    requires forall p: nat :: Needed(segments, p) ==> p !in pages
    ensures PagesToHave(after, segments)
  {
    var all: set<nat> :| CoveredBy(segments, all) && |all| <= MAX_KERNEL_PAGES && all <= before;
    SubsetSize(all * after, all);
    assert CoveredBy(segments, all * after);
  }

  lemma {:induction false} SubsetSize(a: set<nat>, b: set<nat>)
    requires a <= b
    ensures |a| <= |b|
  {
    if a == {} {
    } else {
      var x :| x in a;
      SubsetSize(a - {x}, b - {x});
    }
  }

  /** The boot loader's two loads: the user image never damages the kernel's, although both name their pages. */
  method LoadBoth(fw: Firmware, kernel: seq<byte>, user: seq<byte>)
    returns (r: Result<(LoadedImage, LoadedImage), LoadError>, ghost kernelPages: seq<nat>, ghost userPages: seq<nat>)
    requires fw.Valid() && EndsFit(ImageTrace(kernel).segments) && EndsFit(ImageTrace(user).segments)
    modifies fw, fw.memory
    ensures r.Ok? ==> Landed(r.value.0, kernel, kernelPages, fw.memory[..])
    ensures r.Ok? ==> Landed(r.value.1, user, userPages, fw.memory[..])
    ensures r.Ok? ==> forall p :: p in kernelPages ==> p !in userPages
    ensures BothLoadable(old(fw.available), kernel, user) ==> r.Ok?
  {
    ghost var start := fw.available;
    kernelPages, userPages := [], [];
    var first, firstPages := Load(fw, kernel);
    if first.Err? {
      LoadsIf(start, kernel, firstPages, first.error);
      return Err(first.error), [], [];
    }
    ghost var between, left := fw.memory[..], fw.available;
    if BothLoadable(start, kernel, user) {
      StillToHave(start, left, ImageTrace(user).segments, firstPages);
    }
    var second, secondPages := Load(fw, user);
    if second.Err? {
      LoadsIf(left, user, secondPages, second.error);
      return Err(second.error), [], [];
    }
    StillInPlace(between, fw.memory[..], kernel, ImageTrace(kernel).segments, firstPages, secondPages);
    return Ok((first.value, second.value)), firstPages, secondPages;
  }
}

/** Program headers of an ELF image: iterating over the loadable segments, and the checks before loading. */
module Image {
  import opened LittleEndian
  import opened MemoryMap
  import opened Wrappers

  const ELF_HEADER_MIN_LEN: nat := 64
  const PHDR_LEN: nat := 56
  const PT_LOAD: nat := 1
  const MAX_SEGMENTS: nat := 16

  datatype Segment = Segment(offset: nat, paddr: nat, vaddr: nat, filesz: nat, memsz: nat, flags: nat) {
    function End(): nat { paddr + memsz }

    predicate Contains(a: nat) { paddr <= a < End() }

    /** The whole pages it needs. */
    function PageStart(): nat { paddr / PAGE_SIZE * PAGE_SIZE }

    function PageEnd(): nat { (End() + PAGE_SIZE - 1) / PAGE_SIZE * PAGE_SIZE }

    predicate IsExecutable() { flags % 2 == 1 }
  }

  datatype SegmentError =
    | BadProgramHeaders | FileszLargerThanMemsz | DataOutOfBounds | AddressOverflow
    | EmptySegment | OverlappingSegments | EntryNotExecutable

  /** A little-endian field, as far as the data goes. */
  function Field(data: seq<byte>, at: nat, n: nat): nat {
    if at + n <= |data| then Decode(data[at..at + n]) else 0
  }

  function ReadSegment(data: seq<byte>, entry: nat): Segment {
    Segment(Field(data, entry + 8, 8), Field(data, entry + 24, 8), Field(data, entry + 16, 8),
            Field(data, entry + 32, 8), Field(data, entry + 40, 8), Field(data, entry + 4, 4))
  }

  /** What iterating yields: segments, then the end or an error. */
  datatype Trace = Trace(segments: seq<Segment>, broken: bool)

  function EntryAt(tableOffset: nat, entrySize: nat, index: nat): nat {
    (tableOffset + index * entrySize) % U64_LIMIT
  }

  /** Iteration ends quietly at an entry whose end overflows, and with an error at one past the data. */
  function TraceFrom(data: seq<byte>, tableOffset: nat, entrySize: nat, index: nat, remaining: nat): Trace
    decreases remaining
  {
    var entry := EntryAt(tableOffset, entrySize, index);
    if remaining == 0 || entry + PHDR_LEN >= U64_LIMIT then Trace([], false)
    else if entry + PHDR_LEN > |data| then Trace([], true)
    else
      var rest := TraceFrom(data, tableOffset, entrySize, index + 1, remaining - 1);
      if Field(data, entry, 4) != PT_LOAD then rest
      else Trace([ReadSegment(data, entry)] + rest.segments, rest.broken)
  }

  predicate HeaderOk(data: seq<byte>) {
    ELF_HEADER_MIN_LEN <= |data| && Field(data, 56, 2) != 0 && PHDR_LEN <= Field(data, 54, 2)
  }

  /** All loadable segments of an image whose program headers are sound. */
  function ImageTrace(data: seq<byte>): Trace {
    if !HeaderOk(data) then Trace([], true)
    else TraceFrom(data, Field(data, 32, 8), Field(data, 54, 2), 0, Field(data, 56, 2))
  }

  class SegmentIter {
    const data: seq<byte>
    const tableOffset: nat
    const entrySize: nat
    var remaining: nat
    var index: nat

    function Left(): Trace
      reads this
    {
      TraceFrom(data, tableOffset, entrySize, index, remaining)
    }

    constructor (data: seq<byte>)
      requires HeaderOk(data)
      ensures this.data == data && Left() == ImageTrace(data)
    {
      this.data := data;
      tableOffset, entrySize := Field(data, 32, 8), Field(data, 54, 2);
      index, remaining := 0, Field(data, 56, 2);
    }

    /** The next loadable segment; other kinds of entry are skipped. */
    method Next() returns (r: Option<Result<Segment, SegmentError>>)
      modifies this
      ensures r.None? ==> old(Left()) == Trace([], false)
      ensures r.Some? && r.value.Err? ==> old(Left()) == Trace([], true) && r.value.error == BadProgramHeaders
      ensures r.Some? && r.value.Ok? ==> old(Left()) == Trace([r.value.value] + Left().segments, Left().broken)
      ensures r.Some? ==> remaining < old(remaining)
    {
      while remaining > 0
        invariant Left() == old(Left()) && remaining <= old(remaining)
      {
        var entry := EntryAt(tableOffset, entrySize, index);
        if entry + PHDR_LEN >= U64_LIMIT {
          return None;
        }
        index, remaining := index + 1, remaining - 1;
        if entry + PHDR_LEN > |data| {
          return Some(Err(BadProgramHeaders));
        }
        if Field(data, entry, 4) == PT_LOAD {
          return Some(Ok(ReadSegment(data, entry)));
        }
      }
      return None;
    }
  }

  // ----- the checks -----

  /** What is wrong with one segment, if anything. */
  function Complaint(data: seq<byte>, s: Segment): (e: Option<SegmentError>)
    ensures e.None? <==> 0 < s.memsz && s.filesz <= s.memsz && s.offset + s.filesz <= |data| && s.End() < U64_LIMIT
                         && s.offset + s.filesz < U64_LIMIT
  {
    if s.memsz == 0 then Some(EmptySegment)
    else if s.filesz > s.memsz then Some(FileszLargerThanMemsz)
    else if s.offset + s.filesz >= U64_LIMIT then Some(AddressOverflow)
    else if s.offset + s.filesz > |data| then Some(DataOutOfBounds)
    else if s.End() >= U64_LIMIT then Some(AddressOverflow)
    else None
  }

  ghost predicate Sound(data: seq<byte>, segments: seq<Segment>) {
    forall i :: 0 <= i < |segments| ==> Complaint(data, segments[i]).None?
  }

  ghost predicate Apart(segments: seq<Segment>) {
    forall i, j :: 0 <= i < j < |segments| ==> ApartAt(segments, i, j)
  }

  ghost predicate ApartAt(segments: seq<Segment>, i: nat, j: nat)
    requires i < |segments| && j < |segments|
  {
    segments[i].End() <= segments[j].paddr || segments[j].End() <= segments[i].paddr
  }

  /** The segments seen so far and those still to come make up the image's. */
  ghost predicate Progress(data: seq<byte>, seen: seq<Segment>, left: Trace) {
    ImageTrace(data) == if seen == [] then left else Trace(seen + left.segments, left.broken)
  }

  lemma OneMore(data: seq<byte>, seen: seq<Segment>, s: Segment, left: Trace)
    requires Progress(data, seen, Trace([s] + left.segments, left.broken))
    ensures Progress(data, seen + [s], left)
  {
    assert seen + ([s] + left.segments) == (seen + [s]) + left.segments;
  }

  lemma NoMore(data: seq<byte>, seen: seq<Segment>, broken: bool)
    requires Progress(data, seen, Trace([], broken))
    ensures ImageTrace(data) == Trace(seen, broken)
  {
    assert seen + [] == seen;
  }

  /** Segment `i` is the first with something wrong. */
  ghost predicate FirstAt(data: seq<byte>, segments: seq<Segment>, i: nat, e: SegmentError) {
    i < |segments| && Sound(data, segments[..i]) && Complaint(data, segments[i]) == Some(e)
  }

  /** What the next segment means for the whole image. */
  lemma NextChecked(data: seq<byte>, seen: seq<Segment>, s: Segment, left: Trace)
    requires Progress(data, seen, Trace([s] + left.segments, left.broken)) && Sound(data, seen)
    ensures Progress(data, seen + [s], left)
    ensures match Complaint(data, s)
            case None => Sound(data, seen + [s])
            case Some(e) =>
              var all := ImageTrace(data).segments; !Sound(data, all) && FirstAt(data, all, |seen|, e)
  {
    OneMore(data, seen, s, left);
    var all := ImageTrace(data).segments;
    assert all[|seen|] == s && all[..|seen|] == seen;
  }

  /** Accepts exactly the images whose program headers are whole, not empty and all sound. */
  method CheckSegments(data: seq<byte>) returns (r: Result<nat, SegmentError>)
    ensures r.Ok? <==> && !ImageTrace(data).broken && ImageTrace(data).segments != []
                       && Sound(data, ImageTrace(data).segments)
    ensures r.Ok? ==> r.value == |ImageTrace(data).segments|
    ensures r.Err? && r.error != BadProgramHeaders ==>
              exists i :: FirstAt(data, ImageTrace(data).segments, i, r.error)
  {
    if !HeaderOk(data) {
      return Err(BadProgramHeaders);
    }
    var iter := new SegmentIter(data);
    var count := 0;
    ghost var seen := [];
    while true
      invariant Progress(data, seen, iter.Left()) && Sound(data, seen) && count == |seen|
      decreases iter.remaining
    {
      var next := iter.Next();
      if next.None? {
        break;
      }
      if next.value.Err? {
        return Err(next.value.error);
      }
      var s := next.value.value;
      NextChecked(data, seen, s, iter.Left());
      var bad := Complaint(data, s);
      if bad.Some? {
        return Err(bad.value);
      }
      seen := seen + [s];
      count := count + 1;
    }
    NoMore(data, seen, false);
    if count == 0 {
      return Err(BadProgramHeaders);
    }
    return Ok(count);
  }

  /** At most sixteen segments, no address overflow, no shared byte. */
  ghost predicate LaidOut(segments: seq<Segment>) {
    && |segments| <= MAX_SEGMENTS
    && (forall i :: 0 <= i < |segments| ==> segments[i].End() < U64_LIMIT)
    && Apart(segments)
  }

  predicate Clash(s: Segment, other: Segment) {
    s.paddr < other.End() && other.paddr < s.End()
  }

  ghost predicate Clashes(s: Segment, seen: seq<Segment>) {
    exists i :: 0 <= i < |seen| && Clash(s, seen[i])
  }

  lemma LaidOutMore(seen: seq<Segment>, s: Segment)
    requires LaidOut(seen)
    ensures LaidOut(seen + [s]) <==> |seen| < MAX_SEGMENTS && s.End() < U64_LIMIT && !Clashes(s, seen)
  {
    var more := seen + [s];
    assert more[|seen|] == s;
    if Clashes(s, seen) {
      var i :| 0 <= i < |seen| && Clash(s, seen[i]);
      assert more[i] == seen[i] && !ApartAt(more, i, |seen|);
    } else {
      forall i, j | 0 <= i < j < |more| ensures ApartAt(more, i, j) {
        assert j < |seen| ==> ApartAt(seen, i, j);
        assert j == |seen| ==> !Clash(s, seen[i]);
      }
    }
  }

  lemma ClashesBreak(all: seq<Segment>, seen: seq<Segment>, s: Segment)
    requires |seen| < |all| && all[..|seen| + 1] == seen + [s]
    ensures Clashes(s, seen) ==> !Apart(all)
  {
    assert all[..|seen| + 1][|seen|] == s;
    if i :| 0 <= i < |seen| && Clash(s, seen[i]) {
      assert all[..|seen| + 1][i] == seen[i];
      assert !ApartAt(all, i, |seen|);
    }
  }

  /** How the next segment decides about the whole image. */
  lemma NextSegment(data: seq<byte>, seen: seq<Segment>, s: Segment, left: Trace)
    requires Progress(data, seen + [s], left) && LaidOut(seen)
    ensures LaidOut(seen + [s]) <==> |seen| < MAX_SEGMENTS && s.End() < U64_LIMIT && !Clashes(s, seen)
    ensures LaidOut(ImageTrace(data).segments) ==> LaidOut(seen + [s])
    ensures Clashes(s, seen) ==> !Apart(ImageTrace(data).segments)
  {
    var all := ImageTrace(data).segments;
    assert all[..|seen| + 1] == seen + [s];
    LaidOutMore(seen, s);
    ClashesBreak(all, seen, s);
    if LaidOut(all) {
      LaidOutPrefix(all, |seen| + 1);
    }
  }

  lemma LaidOutPrefix(all: seq<Segment>, n: nat)
    requires LaidOut(all) && n <= |all|
    ensures LaidOut(all[..n])
  {
    forall i, j | 0 <= i < j < n ensures ApartAt(all[..n], i, j) {
      assert ApartAt(all, i, j);
    }
  }

  /** Accepts exactly the images that are laid out so. */
  method CheckNoOverlap(data: seq<byte>) returns (r: Result<Unit, SegmentError>)
    ensures r.Ok? <==> !ImageTrace(data).broken && LaidOut(ImageTrace(data).segments)
    ensures r == Err(OverlappingSegments) ==> !Apart(ImageTrace(data).segments)
  {
    if !HeaderOk(data) {
      return Err(BadProgramHeaders);
    }
    var iter := new SegmentIter(data);
    var ranges := new (nat, nat)[MAX_SEGMENTS](_ => (0, 0));
    var len := 0;
    ghost var seen := [];
    ghost var all := ImageTrace(data).segments;
    while true
      invariant Progress(data, seen, iter.Left()) && len == |seen|
      invariant Recorded(ranges, seen) && LaidOut(seen)
      decreases iter.remaining
    {
      var next := iter.Next();
      if next.None? {
        break;
      }
      if next.value.Err? {
        return Err(next.value.error);
      }
      var s := next.value.value;
      OneMore(data, seen, s, iter.Left());
      NextSegment(data, seen, s, iter.Left());
      var bad := Record(ranges, len, s, seen);
      if bad.Some? {
        return Err(bad.value);
      }
      seen := seen + [s];
      len := len + 1;
    }
    assert seen == all;
    return Ok(Unit);
  }

  /** Compares one segment with those recorded, and records it. */
  method Record(ranges: array<(nat, nat)>, len: nat, s: Segment, ghost seen: seq<Segment>)
    returns (bad: Option<SegmentError>)
    requires Recorded(ranges, seen) && len == |seen|
    modifies ranges
    ensures bad.None? <==> |seen| < MAX_SEGMENTS && s.End() < U64_LIMIT && !Clashes(s, seen)
    ensures bad.None? ==> Recorded(ranges, seen + [s])
    ensures bad.Some? ==> bad.value == if s.End() >= U64_LIMIT then AddressOverflow
                                       else if Clashes(s, seen) then OverlappingSegments else BadProgramHeaders
  {
    if s.End() >= U64_LIMIT {
      return Some(AddressOverflow);
    }
    for i := 0 to len
      invariant Recorded(ranges, seen) && forall j :: 0 <= j < i ==> !Clash(s, seen[j])
    {
      if s.paddr < ranges[i].1 && ranges[i].0 < s.End() {
        assert Clash(s, seen[i]);
        return Some(OverlappingSegments);
      }
    }
    if len == ranges.Length {
      return Some(BadProgramHeaders);
    }
    ranges[len] := (s.paddr, s.End());
    return None;
  }

  ghost predicate Recorded(ranges: array<(nat, nat)>, seen: seq<Segment>)
    reads ranges
  {
    && |seen| <= ranges.Length == MAX_SEGMENTS
    && forall i :: 0 <= i < |seen| ==> ranges[i] == (seen[i].paddr, seen[i].End())
  }

  predicate EntryHere(s: Segment, entry: nat) {
    s.IsExecutable() && s.vaddr <= entry < s.vaddr + s.memsz
  }

  /** The entry point lies in an executable segment, by virtual address. */
  ghost predicate EntryIn(segments: seq<Segment>, entry: nat) {
    exists i :: 0 <= i < |segments| && EntryHere(segments[i], entry)
  }

  ghost predicate VaddrsFit(segments: seq<Segment>) {
    forall i :: 0 <= i < |segments| ==> segments[i].vaddr + segments[i].memsz < U64_LIMIT
  }

  /** And no segment up to that one ends past the address space. */
  ghost predicate EntryFound(segments: seq<Segment>, entry: nat) {
    exists i :: 0 <= i < |segments| && EntryHere(segments[i], entry) && VaddrsFit(segments[..i + 1])
  }

  /** How the next segment decides about the entry point. */
  lemma NextEntry(data: seq<byte>, seen: seq<Segment>, s: Segment, left: Trace, entry: nat)
    requires Progress(data, seen + [s], left) && VaddrsFit(seen) && !EntryIn(seen, entry)
    ensures var all := ImageTrace(data).segments;
            if s.vaddr + s.memsz >= U64_LIMIT then !VaddrsFit(all) && !EntryFound(all, entry)
            else if EntryHere(s, entry) then EntryFound(all, entry)
            else VaddrsFit(seen + [s]) && !EntryIn(seen + [s], entry)
  {
    var all, n := ImageTrace(data).segments, |seen|;
    assert all[..n + 1] == seen + [s] && all[n] == s && all[..n] == seen;
    assert forall j :: 0 <= j < n ==> all[j] == seen[j];
    if s.vaddr + s.memsz >= U64_LIMIT {
      forall i | 0 <= i < |all| && EntryHere(all[i], entry) ensures !VaddrsFit(all[..i + 1]) {
        assert n <= i && all[..i + 1][n] == s;
      }
    }
  }

  lemma EntryNowhere(segments: seq<Segment>, entry: nat)
    requires !EntryIn(segments, entry)
    ensures !EntryFound(segments, entry)
  {
  }

  /** Accepts exactly if an executable segment holds the entry and none up to it overflows. */
  method CheckEntry(data: seq<byte>, entry: nat) returns (r: Result<Unit, SegmentError>)
    ensures r.Ok? <==> EntryFound(ImageTrace(data).segments, entry)
    ensures r == Err(EntryNotExecutable) ==> !EntryIn(ImageTrace(data).segments, entry)
    ensures r == Err(BadProgramHeaders) ==> ImageTrace(data).broken
    ensures r == Err(AddressOverflow) ==> !VaddrsFit(ImageTrace(data).segments)
    ensures r.Ok? || r.error in {EntryNotExecutable, BadProgramHeaders, AddressOverflow}
  {
    if !HeaderOk(data) {
      return Err(BadProgramHeaders);
    }
    var iter := new SegmentIter(data);
    ghost var seen := [];
    ghost var all := ImageTrace(data).segments;
    while true
      invariant Progress(data, seen, iter.Left()) && !EntryIn(seen, entry) && VaddrsFit(seen)
      decreases iter.remaining
    {
      var next := iter.Next();
      if next.None? {
        break;
      }
      if next.value.Err? {
        assert seen == all;
        EntryNowhere(all, entry);
        return Err(next.value.error);
      }
      var s := next.value.value;
      OneMore(data, seen, s, iter.Left());
      NextEntry(data, seen, s, iter.Left(), entry);
      if s.vaddr + s.memsz >= U64_LIMIT {
        return Err(AddressOverflow);
      }
      if s.IsExecutable() && s.vaddr <= entry < s.vaddr + s.memsz {
        return Ok(Unit);
      }
      seen := seen + [s];
    }
    assert seen == all;
    EntryNowhere(all, entry);
    return Err(EntryNotExecutable);
  }

  /** The page-aligned hull of all segments. */
  ghost predicate IsSpan(segments: seq<Segment>, lo: nat, hi: nat) {
    && (forall i :: 0 <= i < |segments| ==> lo <= segments[i].PageStart() && segments[i].PageEnd() <= hi)
    && (exists i :: 0 <= i < |segments| && segments[i].PageStart() == lo)
    && (exists i :: 0 <= i < |segments| && segments[i].PageEnd() == hi)
  }

  method LoadedSpan(data: seq<byte>) returns (r: Result<(nat, nat), SegmentError>)
    ensures r.Ok? <==> !ImageTrace(data).broken && ImageTrace(data).segments != []
    ensures r.Ok? ==> IsSpan(ImageTrace(data).segments, r.value.0, r.value.1)
    ensures r.Err? ==> r.error == BadProgramHeaders
  {
    if !HeaderOk(data) {
      return Err(BadProgramHeaders);
    }
    var iter := new SegmentIter(data);
    var span: Option<(nat, nat)> := None;
    ghost var seen := [];
    ghost var all := ImageTrace(data).segments;
    while true
      invariant Progress(data, seen, iter.Left())
      invariant span.None? <==> seen == []
      invariant span.Some? ==> IsSpan(seen, span.value.0, span.value.1)
      decreases iter.remaining
    {
      var next := iter.Next();
      if next.None? {
        break;
      }
      if next.value.Err? {
        return Err(next.value.error);
      }
      var s := next.value.value;
      OneMore(data, seen, s, iter.Left());
      SpanGrows(seen, s, span);
      span := Some(Wider(s, span));
      seen := seen + [s];
    }
    assert seen == all;
    if span.None? {
      return Err(BadProgramHeaders);
    }
    return Ok(span.value);
  }

  function Wider(s: Segment, span: Option<(nat, nat)>): (nat, nat) {
    var (lo, hi) := (s.PageStart(), s.PageEnd());
    if span.None? then (lo, hi)
    else (if span.value.0 < lo then span.value.0 else lo, if span.value.1 > hi then span.value.1 else hi)
  }

  lemma SpanGrows(seen: seq<Segment>, s: Segment, span: Option<(nat, nat)>)
    requires span.None? ==> seen == []
    requires span.Some? ==> IsSpan(seen, span.value.0, span.value.1)
    ensures IsSpan(seen + [s], Wider(s, span).0, Wider(s, span).1)
  {
    var more := seen + [s];
    assert more[|seen|] == s;
    if span.Some? {
      var i :| 0 <= i < |seen| && seen[i].PageStart() == span.value.0;
      var j :| 0 <= j < |seen| && seen[j].PageEnd() == span.value.1;
      assert more[i] == seen[i] && more[j] == seen[j];
    }
  }
}

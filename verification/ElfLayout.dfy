/** Program headers as the ELF gABI lays them out in a file, and what the loader makes of them. */
module ElfLayout {
  import opened Image
  import opened LittleEndian
  import opened Loader
  import opened MemoryMap

  datatype ProgramHeader =
    ProgramHeader(kind: nat, flags: nat, offset: nat, vaddr: nat, paddr: nat, filesz: nat, memsz: nat)

  /** The bytes from `at` on are `v`, little-endian in `n` bytes. */
  ghost predicate Stored(data: seq<byte>, at: nat, n: nat, v: nat) {
    v < Pow256(n) && at + n <= |data| && data[at..at + n] == Encode(v, n)
  }

  lemma FieldOf(data: seq<byte>, at: nat, n: nat, v: nat)
    requires Stored(data, at, n, v)
    ensures Field(data, at, n) == v
  {
    DecodeEncode(v, n);
  }

  /** Type and flags are words of 4 bytes; offset, addresses and sizes of 8, in this order. */
  ghost predicate StandsAt(data: seq<byte>, at: nat, p: ProgramHeader) {
    && Stored(data, at, 4, p.kind) && Stored(data, at + 4, 4, p.flags)
    && Stored(data, at + 8, 8, p.offset) && Stored(data, at + 16, 8, p.vaddr) && Stored(data, at + 24, 8, p.paddr)
    && Stored(data, at + 32, 8, p.filesz) && Stored(data, at + 40, 8, p.memsz) && at + PHDR_LEN <= |data|
  }

  /** The ELF header's fields: entry point, and where the program headers are, how long each and how many. */
  ghost predicate HeaderOf(data: seq<byte>, entry: nat, table: nat, entrySize: nat, count: nat) {
    && ELF_HEADER_MIN_LEN <= |data| && Stored(data, 24, 8, entry) && Stored(data, 32, 8, table)
    && Stored(data, 54, 2, entrySize) && Stored(data, 56, 2, count) && 0 < count && PHDR_LEN <= entrySize
  }

  ghost predicate TableOf(data: seq<byte>, table: nat, entrySize: nat, headers: seq<ProgramHeader>) {
    table + |headers| * entrySize < U64_LIMIT - PHDR_LEN
    && forall i :: 0 <= i < |headers| ==> StandsAt(data, table + i * entrySize, headers[i])
  }

  /** A file whose program headers are these, or whose first ones are these and whose next one is cut off. */
  ghost predicate FileOf(data: seq<byte>, entry: nat, table: nat, entrySize: nat, count: nat,
                         headers: seq<ProgramHeader>)
  {
    && HeaderOf(data, entry, table, entrySize, count) && TableOf(data, table, entrySize, headers)
    && |headers| <= count && (|headers| < count ==> |data| < table + |headers| * entrySize + PHDR_LEN)
  }

  function SegmentOf(p: ProgramHeader): Segment {
    Segment(p.offset, p.paddr, p.vaddr, p.filesz, p.memsz, p.flags)
  }

  /** The loadable ones, which are those of type 1, in order. */
  function Loadable(headers: seq<ProgramHeader>): seq<Segment> {
    if headers == [] then []
    else (if headers[0].kind == 1 then [SegmentOf(headers[0])] else []) + Loadable(headers[1..])
  }

  lemma HeaderRead(data: seq<byte>, at: nat, p: ProgramHeader)
    requires StandsAt(data, at, p)
    ensures Field(data, at, 4) == p.kind && ReadSegment(data, at) == SegmentOf(p)
  {
    FieldOf(data, at, 4, p.kind);
    FieldOf(data, at + 4, 4, p.flags);
    FieldOf(data, at + 8, 8, p.offset);
    FieldOf(data, at + 16, 8, p.vaddr);
    FieldOf(data, at + 24, 8, p.paddr);
    FieldOf(data, at + 32, 8, p.filesz);
    FieldOf(data, at + 40, 8, p.memsz);
  }

  lemma EntryPlace(table: nat, entrySize: nat, i: nat, n: nat)
    requires i <= n && table + n * entrySize < U64_LIMIT - PHDR_LEN
    ensures EntryAt(table, entrySize, i) == table + i * entrySize < U64_LIMIT - PHDR_LEN
  {
    assert n * entrySize == i * entrySize + (n - i) * entrySize;
  }

  lemma TraceStep(data: seq<byte>, table: nat, entrySize: nat, i: nat, remaining: nat, at: nat, p: ProgramHeader)
    requires 0 < remaining && at == EntryAt(table, entrySize, i) < U64_LIMIT - PHDR_LEN && StandsAt(data, at, p)
    ensures var rest := TraceFrom(data, table, entrySize, i + 1, remaining - 1);
            TraceFrom(data, table, entrySize, i, remaining)
            == Trace((if p.kind == 1 then [SegmentOf(p)] else []) + rest.segments, rest.broken)
  {
    HeaderRead(data, at, p);
  }

  lemma TraceEnd(data: seq<byte>, table: nat, entrySize: nat, i: nat, remaining: nat, at: nat)
    requires at == EntryAt(table, entrySize, i) < U64_LIMIT - PHDR_LEN && (0 < remaining ==> |data| < at + PHDR_LEN)
    ensures TraceFrom(data, table, entrySize, i, remaining) == Trace([], 0 < remaining)
  {
  }

  lemma {:induction false} TraceOf(data: seq<byte>, entry: nat, table: nat, entrySize: nat, count: nat,
                                   headers: seq<ProgramHeader>, i: nat)
    requires FileOf(data, entry, table, entrySize, count, headers) && i <= |headers|
    ensures TraceFrom(data, table, entrySize, i, count - i) == Trace(Loadable(headers[i..]), |headers| < count)
    decreases |headers| - i
  {
    var at := table + i * entrySize;
    EntryPlace(table, entrySize, i, |headers|);
    if i == |headers| {
      TraceEnd(data, table, entrySize, i, count - i, at);
    } else {
      TraceStep(data, table, entrySize, i, count - i, at, headers[i]);
      TraceOf(data, entry, table, entrySize, count, headers, i + 1);
      assert headers[i..][1..] == headers[i + 1..];
    }
  }

  /** Every file reads back as exactly its loadable headers, in order and field by field; a cut-off table is noticed. */
  lemma ReadsBack(data: seq<byte>, entry: nat, table: nat, entrySize: nat, count: nat, headers: seq<ProgramHeader>)
    requires FileOf(data, entry, table, entrySize, count, headers)
    ensures ImageTrace(data) == Trace(Loadable(headers), |headers| < count) && Field(data, 24, 8) == entry
  {
    FieldOf(data, 24, 8, entry);
    FieldOf(data, 32, 8, table);
    FieldOf(data, 54, 2, entrySize);
    FieldOf(data, 56, 2, count);
    TraceOf(data, entry, table, entrySize, count, headers, 0);
    assert headers[0..] == headers;
  }

  lemma {:induction false} LoadableHas(headers: seq<ProgramHeader>, i: nat)
    requires i < |headers| && headers[i].kind == 1
    ensures SegmentOf(headers[i]) in Loadable(headers)
  {
    if i == 0 {
    } else {
      LoadableHas(headers[1..], i - 1);
    }
  }

  /** A loaded file: the bytes of every loadable header stand where it says, and zeroes after them. */
  lemma LoadedWhole(data: seq<byte>, entry: nat, table: nat, entrySize: nat, count: nat, headers: seq<ProgramHeader>,
                    image: LoadedImage, pages: seq<nat>, memory: seq<byte>, i: nat, k: nat)
    requires FileOf(data, entry, table, entrySize, count, headers) && Landed(image, data, pages, memory)
    requires i < |headers| && headers[i].kind == 1 && k < headers[i].memsz
    ensures |headers| == count && image.entry == entry
    ensures var p := headers[i];
            && p.paddr + k < |memory| && (k < p.filesz ==> p.offset + k < |data|)
            && memory[p.paddr + k] == if k < p.filesz then data[p.offset + k] else 0
  {
    ReadsBack(data, entry, table, entrySize, count, headers);
    LoadableHas(headers, i);
    var all, s := ImageTrace(data).segments, SegmentOf(headers[i]);
    var j :| 0 <= j < |all| && all[j] == s;
    InPlaceAt(data, all, memory, j, k);
  }

  lemma InPlaceAt(data: seq<byte>, all: seq<Segment>, memory: seq<byte>, j: nat, k: nat)
    requires Sound(data, all) && InPlace(memory, data, all) && j < |all| && k < all[j].memsz
    ensures var s := all[j];
            && s.paddr + k < |memory| && (k < s.filesz ==> s.offset + k < |data|)
            && memory[s.paddr + k] == if k < s.filesz then data[s.offset + k] else 0
  {
    assert ByteInPlace(memory, data, all[j], all[j].paddr + k);
  }
}

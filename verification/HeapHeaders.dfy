/** Block headers as bytes of the arena, and the list they link. */
module HeapHeaders {
  import opened FreeSpace
  import opened LittleEndian
  import opened Wrappers

  const MAGIC_FREE: nat := 0x4652_4545
  const MAGIC_ALLOC: nat := 0x414C_4C4F
  // End of list.
  const NONE: nat := 0xFFFF_FFFF_FFFF_FFFF
  // Rust slices hold at most `isize::MAX` bytes.
  const ARENA_LIMIT: nat := 0x8000_0000_0000_0000

  datatype Header = Header(magic: nat, size: nat, next: nat)

  /** Bytes 4 to 7 of a header are padding and are not read. */
  function HeaderAt(mem: seq<byte>, offset: nat): Header
    requires offset + HEADER_SIZE <= |mem|
  {
    Header(Decode(mem[offset..offset + 4]),
           Decode(mem[offset + 8..offset + 16]),
           Decode(mem[offset + 16..offset + 24]))
  }

  lemma HeaderFields(mem: seq<byte>, offset: nat)
    requires offset + HEADER_SIZE <= |mem|
    ensures HeaderAt(mem, offset).size < U64_LIMIT && HeaderAt(mem, offset).next < U64_LIMIT
  {
    Limits();
  }

  /** The header that a read at each offset yields. */
  ghost function Headers(mem: seq<byte>): (view: seq<Header>)
    ensures |view| == if |mem| < HEADER_SIZE then 0 else |mem| - HEADER_SIZE + 1
  {
    if |mem| < HEADER_SIZE then [] else HeadersBelow(mem, |mem| - HEADER_SIZE + 1)
  }

  ghost function HeadersBelow(mem: seq<byte>, n: nat): (view: seq<Header>)
    requires n + HEADER_SIZE <= |mem| + 1
    ensures |view| == n
  {
    if n == 0 then [] else HeadersBelow(mem, n - 1) + [HeaderAt(mem, n - 1)]
  }

  lemma {:induction false} HeadersBelowAt(mem: seq<byte>, n: nat, p: nat)
    requires p < n && n + HEADER_SIZE <= |mem| + 1
    ensures HeadersBelow(mem, n)[p] == HeaderAt(mem, p)
  {
    if p == n - 1 {
    } else {
      HeadersBelowAt(mem, n - 1, p);
    }
  }

  lemma HeadersAt(mem: seq<byte>, p: nat)
    requires p + HEADER_SIZE <= |mem|
    ensures Headers(mem)[p] == HeaderAt(mem, p)
  {
    HeadersBelowAt(mem, |mem| - HEADER_SIZE + 1, p);
  }

  /** The bytes `write_header` stores. */
  function HeaderBytes(h: Header): (bytes: seq<byte>)
    ensures |bytes| == HEADER_SIZE
  {
    Encode(h.magic, 4) + Encode(0, 4) + Encode(h.size, 8) + Encode(h.next, 8)
  }

  lemma HeaderBytesRead(mem: seq<byte>, offset: nat, h: Header)
    requires offset + HEADER_SIZE <= |mem| && mem[offset..offset + HEADER_SIZE] == HeaderBytes(h)
    requires h.magic < U32_LIMIT && h.size < U64_LIMIT && h.next < U64_LIMIT
    ensures Headers(mem)[offset] == h
  {
    Limits();
    var bytes := HeaderBytes(h);
    assert mem[offset..offset + 4] == bytes[..4] == Encode(h.magic, 4);
    assert mem[offset + 8..offset + 16] == bytes[8..16] == Encode(h.size, 8);
    assert mem[offset + 16..offset + 24] == bytes[16..24] == Encode(h.next, 8);
    DecodeEncode(h.magic, 4);
    DecodeEncode(h.size, 8);
    DecodeEncode(h.next, 8);
    HeadersAt(mem, offset);
  }

  /** Out of range reads yield nothing. */
  function ReadHeader(mem: seq<byte>, offset: nat): Option<Header> {
    if offset + HEADER_SIZE < U64_LIMIT && offset + HEADER_SIZE <= |mem|
    then Some(HeaderAt(mem, offset)) else None
  }

  ghost predicate Apart(p: nat, q: nat) {
    p + HEADER_SIZE <= q || q + HEADER_SIZE <= p
  }

  lemma SameSlice(a: seq<byte>, b: seq<byte>, lo: nat, hi: nat)
    requires lo <= hi <= |a| == |b| && forall x :: lo <= x < hi ==> a[x] == b[x]
    ensures a[lo..hi] == b[lo..hi]
  {
  }

  /** The four stores of `write_header`. */
  method WriteFields(arena: array<byte>, offset: nat, h: Header)
    requires offset + HEADER_SIZE <= arena.Length
    requires h.magic < U32_LIMIT && h.size < U64_LIMIT && h.next < U64_LIMIT
    modifies arena
    ensures HeaderAt(arena[..], offset) == h
    ensures forall x :: 0 <= x < arena.Length && !(offset <= x < offset + HEADER_SIZE) ==> arena[x] == old(arena[x])
  {
    Limits();
    Store(arena, offset, 4, h.magic);
    ghost var magic := arena[..];
    Store(arena, offset + 4, 4, 0);
    Store(arena, offset + 8, 8, h.size);
    ghost var size := arena[..];
    Store(arena, offset + 16, 8, h.next);
    SameSlice(arena[..], magic, offset, offset + 4);
    SameSlice(arena[..], size, offset + 8, offset + 16);
    assert arena[..][offset + 16..offset + 24] == arena[offset + 16..offset + 24];
  }

  /** Headers elsewhere, and every byte outside this one, keep their value. */
  method WriteHeader(arena: array<byte>, offset: nat, h: Header)
    requires offset + HEADER_SIZE <= arena.Length
    requires h.magic < U32_LIMIT && h.size < U64_LIMIT && h.next < U64_LIMIT
    modifies arena
    ensures |Headers(arena[..])| == old(|Headers(arena[..])|)
    ensures Headers(arena[..])[offset] == h
    ensures forall p :: 0 <= p < |Headers(arena[..])| && Apart(p, offset) ==>
                        Headers(arena[..])[p] == old(Headers(arena[..]))[p]
    ensures forall x :: 0 <= x < arena.Length && !(offset <= x < offset + HEADER_SIZE) ==> arena[x] == old(arena[x])
  {
    ghost var before := arena[..];
    WriteFields(arena, offset, h);
    HeadersAt(arena[..], offset);
    forall p | 0 <= p < |Headers(arena[..])| && Apart(p, offset)
      ensures Headers(arena[..])[p] == Headers(before)[p]
    {
      SameBytesSameHeader(before, arena[..], p);
    }
  }

  lemma SameBytesSameHeader(mem: seq<byte>, mem': seq<byte>, p: nat)
    requires p + HEADER_SIZE <= |mem| && |mem| == |mem'|
    requires forall x :: p <= x < p + HEADER_SIZE ==> mem[x] == mem'[x]
    ensures Headers(mem)[p] == Headers(mem')[p]
  {
    HeadersAt(mem, p);
    HeadersAt(mem', p);
    assert mem[p..p + 4] == mem'[p..p + 4];
    assert mem[p + 8..p + 16] == mem'[p + 8..p + 16];
    assert mem[p + 16..p + 24] == mem'[p + 16..p + 24];
  }

  // ----- the linked list -----

  function StartOf(frees: seq<Span>, i: nat): nat {
    if i < |frees| then frees[i].start else NONE
  }

  /** The header in block `i` leads to block `i + 1`. */
  ghost predicate Link(view: seq<Header>, frees: seq<Span>, i: nat) {
    && i < |frees|
    && frees[i].start < |view|
    && view[frees[i].start] == Header(MAGIC_FREE, frees[i].size, StartOf(frees, i + 1))
  }

  /** Following `next` from `head` visits exactly the spans of `frees`, in order. */
  ghost predicate Linked(view: seq<Header>, head: nat, frees: seq<Span>, len: nat) {
    && len < |view| + HEADER_SIZE
    && Canonical(frees, len)
    && head == StartOf(frees, 0)
    && (forall i :: 0 <= i < |frees| ==> Link(view, frees, i))
  }

  /** Every live block still carries its own header. */
  ghost predicate Tagged(view: seq<Header>, live: set<Span>, len: nat) {
    && len < |view| + HEADER_SIZE
    && (forall s :: s in live ==>
                    SpanOk(s, len) && view[s.start].magic == MAGIC_ALLOC && view[s.start].size == s.size)
  }

  /** Replacing a stretch of the list: its new links, the link into it, and nothing else, changed. */
  lemma LinkedSplice(view: seq<Header>, view': seq<Header>, head: nat, head': nat,
                     frees: seq<Span>, lo: nat, hi: nat, mid: seq<Span>, rest: seq<Span>, len: nat)
    requires Linked(view, head, frees, len) && |view'| == |view| && lo <= hi <= |frees|
    requires Canonical(mid, len) && Canonical(Splice(frees, lo, hi, mid), len) && rest == mid + frees[hi..]
    requires forall j :: (0 <= j < lo - 1 || hi <= j < |frees|) ==> view'[frees[j].start] == view[frees[j].start]
    requires 0 < lo ==> head' == head
    requires 0 < lo ==> view'[frees[lo - 1].start] == Header(MAGIC_FREE, frees[lo - 1].size, StartOf(rest, 0))
    requires lo == 0 ==> head' == StartOf(rest, 0)
    requires forall j :: 0 <= j < |mid| ==>
                         view'[mid[j].start] == Header(MAGIC_FREE, mid[j].size, StartOf(rest, j + 1))
    ensures Linked(view', head', Splice(frees, lo, hi, mid), len)
  {
    var out := Splice(frees, lo, hi, mid);
    forall i | 0 <= i < |out|
      ensures Link(view', out, i)
    {
      SpliceLinks(frees, lo, hi, mid, i);
      if i < lo {
        assert Link(view, frees, i);
      } else if lo + |mid| <= i {
        assert Link(view, frees, i - lo - |mid| + hi);
      }
    }
    SpliceHead(frees, lo, hi, mid);
  }

  lemma SpliceHead(frees: seq<Span>, lo: nat, hi: nat, mid: seq<Span>)
    requires lo <= hi <= |frees|
    ensures StartOf(Splice(frees, lo, hi, mid), 0) == if 0 < lo then frees[0].start else StartOf(mid + frees[hi..], 0)
  {
  }

  /** Span `i` of a spliced list and the start of the span after it. */
  lemma SpliceLinks(frees: seq<Span>, lo: nat, hi: nat, mid: seq<Span>, i: nat)
    requires lo <= hi <= |frees| && i < |Splice(frees, lo, hi, mid)|
    ensures var out := Splice(frees, lo, hi, mid);
            if i < lo then
              out[i] == frees[i]
              && StartOf(out, i + 1) == if i + 1 < lo then frees[i + 1].start else StartOf(mid + frees[hi..], 0)
            else if i < lo + |mid| then
              out[i] == mid[i - lo] && StartOf(out, i + 1) == StartOf(mid + frees[hi..], i - lo + 1)
            else
              out[i] == frees[i - lo - |mid| + hi]
              && StartOf(out, i + 1) == StartOf(frees, i - lo - |mid| + hi + 1)
  {
  }

  lemma {:induction false} CountBound(frees: seq<Span>, len: nat)
    requires Canonical(frees, len)
    ensures frees != [] ==> HEADER_SIZE * |frees| <= frees[|frees| - 1].End()
    ensures HEADER_SIZE * |frees| <= len
  {
    if frees == [] {
    } else {
      CountBound(frees[..|frees| - 1], len);
    }
  }
}

/**
 The abstract kernel heap: which bytes of the arena are free, kept as an
 address-ordered list of spans that never touch, and which spans are live.

 The list is canonical: the set of free bytes determines it (`CanonicalUnique`).
 That one fact makes freeing undo allocating, and makes the order of frees
 irrelevant.
 */
module FreeSpace {
  import opened Arithmetic
  import opened Wrappers

  const HEADER_SIZE: nat := 24
  const MIN_PAYLOAD: nat := 16
  const MIN_BLOCK: nat := HEADER_SIZE + MIN_PAYLOAD
  const HEADER_ALIGN: nat := 8
  const MAX_ALIGN: nat := 4096

  /** A block of the arena: header included, `size` bytes from `start`. */
  datatype Span = Span(start: nat, size: nat) {
    function End(): nat { start + size }

    predicate Contains(x: int) { start <= x < End() }
  }

  ghost predicate Disjoint(s: Span, t: Span) {
    s.End() <= t.start || t.End() <= s.start
  }

  /** Multiples of the header alignment, by their quotient: proofs then meet no remainders. */
  ghost predicate Aligned(n: nat) {
    exists k :: Eightfold(n, k)
  }

  ghost predicate Eightfold(n: nat, k: int) {
    n == HEADER_ALIGN * k
  }

  lemma AlignedIff(n: nat)
    ensures Aligned(n) <==> n % HEADER_ALIGN == 0
  {
    if n % HEADER_ALIGN == 0 {
      assert Eightfold(n, n / HEADER_ALIGN);
    }
  }

  lemma AlignedSum(a: nat, b: nat)
    requires Aligned(a) && Aligned(b)
    ensures Aligned(a + b)
  {
    var j, k :| Eightfold(a, j) && Eightfold(b, k);
    assert Eightfold(a + b, j + k);
  }

  lemma AlignedDifference(a: nat, b: nat)
    requires Aligned(a) && Aligned(b) && b <= a
    ensures Aligned(a - b)
  {
    var j, k :| Eightfold(a, j) && Eightfold(b, k);
    assert Eightfold(a - b, j - k);
  }

  ghost predicate SpanOk(s: Span, len: nat) {
    && Aligned(s.start)
    && Aligned(s.size)
    && HEADER_SIZE <= s.size
    && s.End() <= len
  }

  /** In address order, inside the arena, and no two spans touch. */
  ghost predicate Canonical(frees: seq<Span>, len: nat) {
    && (forall i :: 0 <= i < |frees| ==> SpanOk(frees[i], len))
    && (forall i, j :: 0 <= i < j < |frees| ==> frees[i].End() < frees[j].start)
  }

  ghost predicate Covered(frees: seq<Span>, x: int) {
    exists i :: 0 <= i < |frees| && frees[i].Contains(x)
  }

  /** A canonical list is determined by the bytes it covers. */
  lemma {:induction false} CanonicalUnique(a: seq<Span>, b: seq<Span>, len: nat)
    requires Canonical(a, len) && Canonical(b, len)
    requires forall x :: Covered(a, x) <==> Covered(b, x)
    ensures a == b
  {
    if a == [] {
      if b != [] {
        assert b[0].Contains(b[0].start);
        assert Covered(b, b[0].start);
      }
    } else {
      FirstSpanWithin(a, b, len);
      FirstSpanWithin(b, a, len);
      forall x
        ensures Covered(a[1..], x) <==> Covered(b[1..], x)
      {
        CoveredTail(a, x, len);
        CoveredTail(b, x, len);
      }
      CanonicalUnique(a[1..], b[1..], len);
      assert a == [a[0]] + a[1..] && b == [b[0]] + b[1..];
    }
  }

  lemma FirstSpanWithin(a: seq<Span>, b: seq<Span>, len: nat)
    requires Canonical(a, len) && Canonical(b, len) && a != []
    requires forall x :: Covered(a, x) ==> Covered(b, x)
    ensures b != [] && b[0].start <= a[0].start
    ensures b[0].start == a[0].start ==> a[0].End() <= b[0].End()
  {
    assert a[0].Contains(a[0].start) && Covered(a, a[0].start);
    var j :| 0 <= j < |b| && b[j].Contains(a[0].start);
    assert !Covered(b, b[0].End());
    assert !a[0].Contains(b[0].End()) by {
      assert !Covered(a, b[0].End());
    }
  }

  lemma CoveredTail(a: seq<Span>, x: int, len: nat)
    requires Canonical(a, len) && a != []
    ensures Covered(a[1..], x) <==> Covered(a, x) && !a[0].Contains(x)
  {
    if Covered(a[1..], x) {
      var i :| 0 <= i < |a[1..]| && a[1..][i].Contains(x);
      assert a[i + 1].Contains(x);
    }
    if Covered(a, x) && !a[0].Contains(x) {
      var i :| 0 <= i < |a| && a[i].Contains(x);
      assert a[1..][i - 1].Contains(x);
    }
  }

  // ----- placement of one request inside one free span -----

  function Pow2(k: nat): nat {
    if k == 0 then 1 else 2 * Pow2(k - 1)
  }

  ghost predicate PowerOfTwo(n: nat) {
    exists k: nat :: n == Pow2(k)
  }

  ghost predicate ValidRequest(size: nat, align: nat) {
    0 < size && 0 < align <= MAX_ALIGN && PowerOfTwo(align)
  }

  /** Any size but zero, and thirteen alignments. */
  lemma ValidIff(size: nat, align: nat)
    ensures ValidRequest(size, align) <==>
            && 0 < size
            && align in {1, 2, 4, 8, 16, 32, 64, 128, 256, 512, 1024, 2048, 4096}
  {
    assert Pow2(3) == 8 && Pow2(6) == 8 * Pow2(3) && Pow2(9) == 8 * Pow2(6) && Pow2(12) == 8 * Pow2(9);
    if ValidRequest(size, align) {
      var k: nat :| align == Pow2(k);
      PowBelow(k);
    } else if align in {1, 2, 4, 8, 16, 32, 64, 128, 256, 512, 1024, 2048, 4096} {
      assert align in {Pow2(0), Pow2(1), Pow2(2), Pow2(3), Pow2(4), Pow2(5), Pow2(6), Pow2(7), Pow2(8), Pow2(9),
                       Pow2(10), Pow2(11), Pow2(12)};
    }
  }

  lemma {:induction false} PowBelow(k: nat)
    requires Pow2(k) <= MAX_ALIGN
    ensures Pow2(k) in {1, 2, 4, 8, 16, 32, 64, 128, 256, 512, 1024, 2048, 4096}
  {
    if k == 0 {
    } else {
      PowBelow(k - 1);
    }
  }

  /** The least multiple of `align` at or above `value`, reached by steps of `align`. */
  function RoundUp(value: nat, align: nat): (r: nat)
    requires 0 < align
    ensures value <= r < value + align
  {
    if value == 0 then 0 else if value <= align then align else align + RoundUp(value - align, align)
  }

  lemma {:induction false} RoundUpMultiple(value: nat, align: nat)
    requires 0 < align
    ensures RoundUp(value, align) % align == 0
    ensures RoundUp(value, align) == (value + align - 1) / align * align
    decreases value
  {
    var r := RoundUp(value, align);
    var q := 0;
    if value > align {
      RoundUpMultiple(value - align, align);
      q := (r - align) / align + 1;
    } else if value > 0 {
      q := 1;
    }
    assert r == q * align;
    DivModUnique(r, align, q, 0);
    DivModUnique(value + align - 1, align, q, value + align - 1 - r);
  }

  lemma {:induction false} StepsAligned(value: nat, align: nat)
    requires 0 < align && Aligned(align)
    ensures Aligned(RoundUp(value, align))
    decreases value
  {
    assert Eightfold(0, 0);
    if value <= align {
    } else {
      StepsAligned(value - align, align);
      AlignedSum(align, RoundUp(value - align, align));
    }
  }

  lemma SmallKeep(v: nat, align: nat)
    requires align in {1, 2, 4} && v % HEADER_ALIGN == 0
    ensures RoundUp(v, align) == v
  {
    RoundUpMultiple(v, align);
  }

  /** Alignments below the header's keep an aligned address; the others are its multiples. */
  lemma RoundUpAligned(v: nat, align: nat)
    requires 0 < align && PowerOfTwo(align) && Aligned(v)
    ensures Aligned(RoundUp(v, align))
  {
    var k: nat :| align == Pow2(k);
    if k < 3 {
      assert align in {1, 2, 4};
      AlignedIff(v);
      SmallKeep(v, align);
    } else {
      assert Pow2(k) == 2 * Pow2(k - 1) && Pow2(k - 1) == 2 * Pow2(k - 2) && Pow2(k - 2) == 2 * Pow2(k - 3);
      assert Eightfold(align, Pow2(k - 3));
      StepsAligned(v, align);
    }
  }

  /** Payload offset the allocator would use in the free span that begins at `start`. */
  function Place(start: nat, align: nat): (payload: nat)
    requires 0 < align
    ensures start + HEADER_SIZE <= payload < start + HEADER_SIZE + MIN_BLOCK + align
  {
    var payloadMin := start + HEADER_SIZE;
    var payload := RoundUp(payloadMin, align);
    if 0 < payload - payloadMin < MIN_BLOCK then RoundUp(payloadMin + MIN_BLOCK, align) else payload
  }

  /** The header touches the payload, so a gap in front is absent or large enough to stay free. */
  predicate GapRule(start: nat, payload: nat) {
    payload == start + HEADER_SIZE || start + HEADER_SIZE + MIN_BLOCK <= payload
  }

  lemma PlaceSpec(start: nat, align: nat)
    requires 0 < align && PowerOfTwo(align) && Aligned(start)
    ensures Place(start, align) % align == 0
    ensures Aligned(Place(start, align))
    ensures GapRule(start, Place(start, align))
  {
    RoundUpMultiple(start + HEADER_SIZE, align);
    RoundUpMultiple(start + HEADER_SIZE + MIN_BLOCK, align);
    assert Eightfold(HEADER_SIZE, 3) && Eightfold(MIN_BLOCK, 5);
    AlignedSum(start, HEADER_SIZE);
    AlignedSum(start + HEADER_SIZE, MIN_BLOCK);
    RoundUpAligned(start + HEADER_SIZE, align);
    RoundUpAligned(start + HEADER_SIZE + MIN_BLOCK, align);
  }

  lemma RoundUpLeast(value: nat, align: nat, p: nat)
    requires 0 < align && p % align == 0 && value <= p
    ensures RoundUp(value, align) <= p
  {
    var q := StepCount(value, align);
    var k := Quotient(p, align);
    MultiplesApart(q, k, align);
  }

  lemma {:induction false} StepCount(value: nat, align: nat) returns (q: nat)
    requires 0 < align
    ensures RoundUp(value, align) == q * align
    decreases value
  {
    if value <= align {
      q := if value == 0 then 0 else 1;
    } else {
      var rest := StepCount(value - align, align);
      q := rest + 1;
    }
  }

  lemma Quotient(p: nat, align: nat) returns (k: nat)
    requires 0 < align && p % align == 0
    ensures p == k * align
  {
    k := p / align;
  }

  lemma MultiplesApart(a: nat, b: nat, align: nat)
    requires a * align < b * align + align
    ensures a * align <= b * align
  {
    assert (a - b) * align == a * align - b * align;
    if a > b {
      AtLeastOneMultiple(a - b, align);
    }
  }

  /** No legal payload position lies below the one the allocator uses. */
  lemma PlaceLeast(start: nat, align: nat, p: nat)
    requires 0 < align && p % align == 0 && start + HEADER_SIZE <= p && GapRule(start, p)
    ensures Place(start, align) <= p
  {
    RoundUpLeast(start + HEADER_SIZE, align, p);
    if start + HEADER_SIZE + MIN_BLOCK <= p {
      RoundUpLeast(start + HEADER_SIZE + MIN_BLOCK, align, p);
    }
  }

  // ----- cutting one free span around a payload -----

  function TailStart(payload: nat, size: nat): nat {
    RoundUp(payload + size, HEADER_ALIGN)
  }

  /** The live block: header, payload and any tail too small to split off. */
  function Carved(s: Span, payload: nat, size: nat): Span
    requires s.start + HEADER_SIZE <= payload && payload + size <= s.End()
  {
    var header := payload - HEADER_SIZE;
    var tail := TailStart(payload, size);
    if tail + MIN_BLOCK <= s.End() then Span(header, tail - header) else Span(header, s.End() - header)
  }

  function Front(s: Span, payload: nat): seq<Span>
    requires s.start + HEADER_SIZE <= payload
  {
    var gap := payload - HEADER_SIZE - s.start;
    if gap > 0 then [Span(s.start, gap)] else []
  }

  function Tail(s: Span, payload: nat, size: nat): seq<Span> {
    var tail := TailStart(payload, size);
    if tail + MIN_BLOCK <= s.End() then [Span(tail, s.End() - tail)] else []
  }

  ghost predicate Placed(s: Span, payload: nat, size: nat) {
    && Aligned(payload)
    && GapRule(s.start, payload)
    && payload + size <= s.End()
  }

  lemma NoCrossing(v: nat, end: nat)
    requires v <= end && Aligned(end)
    ensures Aligned(RoundUp(v, HEADER_ALIGN)) && RoundUp(v, HEADER_ALIGN) <= end
  {
    assert Eightfold(HEADER_ALIGN, 1);
    StepsAligned(v, HEADER_ALIGN);
    var j, k :| Eightfold(RoundUp(v, HEADER_ALIGN), j) && Eightfold(end, k);
  }

  lemma PlacedBounds(s: Span, payload: nat, size: nat, len: nat)
    requires SpanOk(s, len) && Placed(s, payload, size)
    ensures Aligned(s.End()) && Aligned(payload - HEADER_SIZE)
    ensures Aligned(TailStart(payload, size))
    ensures payload + size <= TailStart(payload, size) <= s.End()
  {
    AlignedSum(s.start, s.size);
    assert Eightfold(HEADER_SIZE, 3);
    AlignedDifference(payload, HEADER_SIZE);
    NoCrossing(payload + size, s.End());
  }

  lemma CarvedOk(s: Span, payload: nat, size: nat, len: nat)
    requires SpanOk(s, len) && 0 < size && Placed(s, payload, size)
    ensures var c := Carved(s, payload, size);
            SpanOk(c, len) && c.start + HEADER_SIZE == payload && payload + size <= c.End() <= s.End()
  {
    PlacedBounds(s, payload, size, len);
    AlignedDifference(TailStart(payload, size), payload - HEADER_SIZE);
    AlignedDifference(s.End(), payload - HEADER_SIZE);
  }

  lemma FrontOk(s: Span, payload: nat, size: nat, len: nat)
    requires SpanOk(s, len) && Placed(s, payload, size)
    ensures var f := Front(s, payload);
            if f == [] then payload == s.start + HEADER_SIZE
            else f[0].start == s.start && f[0].End() + HEADER_SIZE == payload && SpanOk(f[0], len)
  {
    PlacedBounds(s, payload, size, len);
    AlignedDifference(payload - HEADER_SIZE, s.start);
  }

  lemma TailOk(s: Span, payload: nat, size: nat, len: nat)
    requires SpanOk(s, len) && Placed(s, payload, size)
    ensures var t := Tail(s, payload, size);
            if t == [] then Carved(s, payload, size).End() == s.End()
            else t[0].start == Carved(s, payload, size).End() && t[0].End() == s.End() && SpanOk(t[0], len)
  {
    PlacedBounds(s, payload, size, len);
    AlignedDifference(s.End(), TailStart(payload, size));
  }

  // ----- editing the list -----

  lemma CoveredConcat(a: seq<Span>, b: seq<Span>, x: int)
    ensures Covered(a + b, x) <==> Covered(a, x) || Covered(b, x)
  {
    var c := a + b;
    if Covered(a, x) {
      var i :| 0 <= i < |a| && a[i].Contains(x);
      assert c[i].Contains(x);
    } else if Covered(b, x) {
      var i :| 0 <= i < |b| && b[i].Contains(x);
      assert c[|a| + i].Contains(x);
    }
  }

  lemma CoveredOne(s: Span, x: int)
    ensures Covered([s], x) <==> s.Contains(x)
  {
    if s.Contains(x) {
      assert [s][0].Contains(x);
    }
  }

  lemma CoveredSplit(frees: seq<Span>, lo: nat, hi: nat, x: int)
    requires lo <= hi <= |frees|
    ensures Covered(frees, x) <==> Covered(frees[..lo], x) || Covered(frees[lo..hi], x) || Covered(frees[hi..], x)
  {
    assert frees == (frees[..lo] + frees[lo..hi]) + frees[hi..];
    CoveredConcat(frees[..lo] + frees[lo..hi], frees[hi..], x);
    CoveredConcat(frees[..lo], frees[lo..hi], x);
  }

  /** `frees` with the spans from `lo` to `hi` replaced by `mid`. */
  function Splice(frees: seq<Span>, lo: nat, hi: nat, mid: seq<Span>): seq<Span>
    requires lo <= hi <= |frees|
  {
    frees[..lo] + mid + frees[hi..]
  }

  lemma SpliceCovered(frees: seq<Span>, lo: nat, hi: nat, mid: seq<Span>, x: int)
    requires lo <= hi <= |frees|
    ensures Covered(Splice(frees, lo, hi, mid), x) <==>
            Covered(frees[..lo], x) || Covered(mid, x) || Covered(frees[hi..], x)
  {
    CoveredConcat(frees[..lo] + mid, frees[hi..], x);
    CoveredConcat(frees[..lo], mid, x);
  }

  lemma CanonicalConcat(a: seq<Span>, b: seq<Span>, len: nat)
    requires Canonical(a, len) && Canonical(b, len)
    requires a != [] && b != [] ==> a[|a| - 1].End() < b[0].start
    ensures Canonical(a + b, len)
  {
  }

  /** The replacement keeps the list canonical when it stays clear of both neighbours. */
  lemma SpliceCanonical(frees: seq<Span>, lo: nat, hi: nat, mid: seq<Span>, len: nat)
    requires lo <= hi <= |frees| && Canonical(frees, len) && Canonical(mid, len)
    requires mid != [] && 0 < lo ==> frees[lo - 1].End() < mid[0].start
    requires mid != [] && hi < |frees| ==> mid[|mid| - 1].End() < frees[hi].start
    ensures Canonical(Splice(frees, lo, hi, mid), len)
  {
    CanonicalConcat(frees[..lo], mid, len);
    CanonicalConcat(frees[..lo] + mid, frees[hi..], len);
  }

  /** The free list after a block for `payload` is cut out of span `i`. */
  function Take(frees: seq<Span>, i: nat, payload: nat, size: nat): seq<Span>
    requires i < |frees| && frees[i].start + HEADER_SIZE <= payload
  {
    Splice(frees, i, i + 1, Front(frees[i], payload) + Tail(frees[i], payload, size))
  }

  lemma LeftoverTiles(s: Span, payload: nat, size: nat, len: nat)
    requires SpanOk(s, len) && 0 < size && Placed(s, payload, size)
    ensures var mid := Front(s, payload) + Tail(s, payload, size);
            && Canonical(mid, len)
            && (mid != [] ==> s.start <= mid[0].start && mid[|mid| - 1].End() <= s.End())
            && (forall x :: Covered(mid, x) <==> s.Contains(x) && !Carved(s, payload, size).Contains(x))
  {
    CarvedOk(s, payload, size, len);
    FrontOk(s, payload, size, len);
    TailOk(s, payload, size, len);
    var f, t := Front(s, payload), Tail(s, payload, size);
    forall x
      ensures Covered(f + t, x) <==> s.Contains(x) && !Carved(s, payload, size).Contains(x)
    {
      CoveredConcat(f, t, x);
      if f != [] { CoveredOne(f[0], x); }
      if t != [] { CoveredOne(t[0], x); }
    }
  }

  lemma TakeSpec(frees: seq<Span>, i: nat, payload: nat, size: nat, len: nat)
    requires Canonical(frees, len) && i < |frees| && 0 < size && Placed(frees[i], payload, size)
    ensures Canonical(Take(frees, i, payload, size), len)
    ensures forall x :: Covered(Take(frees, i, payload, size), x) <==>
                        Covered(frees, x) && !Carved(frees[i], payload, size).Contains(x)
  {
    var s := frees[i];
    var mid := Front(s, payload) + Tail(s, payload, size);
    LeftoverTiles(s, payload, size, len);
    SpliceCanonical(frees, i, i + 1, mid, len);
    CarvedOk(s, payload, size, len);
    forall x
      ensures Covered(Take(frees, i, payload, size), x) <==>
              Covered(frees, x) && !Carved(s, payload, size).Contains(x)
    {
      SpliceCovered(frees, i, i + 1, mid, x);
      CoveredSplit(frees, i, i + 1, x);
      assert frees[i..i + 1] == [s];
      CoveredOne(s, x);
      OthersMiss(frees, i, x, len);
    }
  }

  /** A byte of span `i` is in no span before or after it. */
  lemma OthersMiss(frees: seq<Span>, i: nat, x: int, len: nat)
    requires Canonical(frees, len) && i < |frees|
    ensures frees[i].Contains(x) ==> !Covered(frees[..i], x) && !Covered(frees[i + 1..], x)
  {
  }

  // ----- putting a block back -----

  /** Spans below `k` end at or before `s`; spans from `k` on begin at or after its end. */
  ghost predicate InsertPoint(frees: seq<Span>, k: nat, s: Span) {
    && k <= |frees|
    && (forall i :: 0 <= i < k ==> frees[i].End() <= s.start)
    && (forall i :: k <= i < |frees| ==> s.End() <= frees[i].start)
  }

  function JoinLow(frees: seq<Span>, k: nat, s: Span): nat
    requires k <= |frees|
  {
    if 0 < k && frees[k - 1].End() == s.start then k - 1 else k
  }

  function JoinHigh(frees: seq<Span>, k: nat, s: Span): nat
    requires k <= |frees|
  {
    if k < |frees| && s.End() == frees[k].start then k + 1 else k
  }

  /** `s` merged with the neighbours it touches. */
  function Joined(frees: seq<Span>, k: nat, s: Span): Span
    requires k <= |frees|
  {
    var start := if JoinLow(frees, k, s) < k then frees[k - 1].start else s.start;
    var size := s.size
                + (if JoinHigh(frees, k, s) > k then frees[k].size else 0)
                + (if JoinLow(frees, k, s) < k then frees[k - 1].size else 0);
    Span(start, size)
  }

  function InsertAt(frees: seq<Span>, k: nat, s: Span): seq<Span>
    requires k <= |frees|
  {
    Splice(frees, JoinLow(frees, k, s), JoinHigh(frees, k, s), [Joined(frees, k, s)])
  }

  lemma JoinedOk(frees: seq<Span>, k: nat, s: Span, len: nat)
    requires Canonical(frees, len) && SpanOk(s, len) && InsertPoint(frees, k, s)
    ensures SpanOk(Joined(frees, k, s), len)
  {
    var high := if JoinHigh(frees, k, s) > k then frees[k].size else 0;
    assert Eightfold(0, 0);
    AlignedSum(s.size, high);
    if JoinLow(frees, k, s) < k {
      AlignedSum(s.size + high, frees[k - 1].size);
    }
  }

  lemma InsertAtCanonical(frees: seq<Span>, k: nat, s: Span, len: nat)
    requires Canonical(frees, len) && SpanOk(s, len) && InsertPoint(frees, k, s)
    ensures SpanOk(Joined(frees, k, s), len)
    ensures Canonical(InsertAt(frees, k, s), len)
  {
    var m := Joined(frees, k, s);
    JoinedOk(frees, k, s, len);
    SpliceCanonical(frees, JoinLow(frees, k, s), JoinHigh(frees, k, s), [m], len);
  }

  lemma InsertAtCovered(frees: seq<Span>, k: nat, s: Span, len: nat, x: int)
    requires Canonical(frees, len) && SpanOk(s, len) && InsertPoint(frees, k, s)
    ensures Covered(InsertAt(frees, k, s), x) <==> Covered(frees, x) || s.Contains(x)
  {
    var lo, hi := JoinLow(frees, k, s), JoinHigh(frees, k, s);
    SpliceCovered(frees, lo, hi, [Joined(frees, k, s)], x);
    CoveredSplit(frees, lo, hi, x);
    CoveredOne(Joined(frees, k, s), x);
    JoinedContains(frees, k, s, x);
  }

  lemma JoinedContains(frees: seq<Span>, k: nat, s: Span, x: int)
    requires k <= |frees|
    ensures var lo, hi := JoinLow(frees, k, s), JoinHigh(frees, k, s);
            Joined(frees, k, s).Contains(x) <==> Covered(frees[lo..hi], x) || s.Contains(x)
  {
    var lo, hi := JoinLow(frees, k, s), JoinHigh(frees, k, s);
    CoveredConcat(frees[lo..k], frees[k..hi], x);
    assert frees[lo..hi] == frees[lo..k] + frees[k..hi];
    if lo < k {
      assert frees[lo..k] == [frees[lo]];
      CoveredOne(frees[lo], x);
    }
    if k < hi {
      assert frees[k..hi] == [frees[k]];
      CoveredOne(frees[k], x);
    }
  }
}

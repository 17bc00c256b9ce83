/** Whole runs of the heap over its bytes: requests of any kind, and callers who write into their payloads. */
module HeapRuns {
  import opened FreeSpace
  import opened HeapHeaders
  import H = HeapModel
  import opened KernelHeap
  import opened LittleEndian
  import opened Wrappers

  /** The arena's bytes, the list's head and length, and the heap they stand for. */
  datatype Snapshot = Snapshot(mem: seq<byte>, head: nat, len: nat, model: H.Heap)

  datatype Request = Take(size: nat, align: nat) | Give(offset: nat) | Write(at: nat, value: byte)

  /** The bytes hold the heap, and its blocks tile the arena. */
  ghost predicate Sound(s: Snapshot) {
    && s.len <= |s.mem| < ARENA_LIMIT && s.model.len == s.len && H.Tiled(s.model)
    && Linked(Headers(s.mem), s.head, s.model.frees, s.len) && Tagged(Headers(s.mem), s.model.live, s.len)
  }

  /** What the bytes before an offset get accepted as; nothing, if the checks refuse it. */
  ghost function Claim(s: Snapshot, offset: nat): Span {
    if Verdict(Headers(s.mem), s.model.frees, s.len, offset) == None then ClaimedAt(Headers(s.mem), offset)
    else Span(0, 0)
  }

  ghost function OpOf(s: Snapshot, r: Request): H.Op
    requires !r.Write?
  {
    match r
    case Take(size, align) => H.AllocOp(size, align)
    case Give(offset) => H.DeallocOp(offset, Claim(s, offset))
  }

  /** Bytes of these blocks, headers included, are as they were. */
  ghost predicate Kept(live: set<Span>, mem: seq<byte>, mem': seq<byte>) {
    |mem'| == |mem| && forall x :: 0 <= x < |mem| && H.LiveCovers(live, x) ==> mem'[x] == mem[x]
  }

  /** One request, as `Allocate`, `Release` and `Store` serve it on sound bytes. */
  ghost predicate Serves(s: Snapshot, r: Request, s': Snapshot) {
    && s'.len == s.len
    && match r
       case Write(at, value) => InPayload(s.model, at) && at < |s.mem| && s' == s.(mem := s.mem[at := value])
       case Take(_, _) => s'.model == H.Step(s.model, OpOf(s, r)) && Sound(s') && Kept(s.model.live, s.mem, s'.mem)
       case Give(_) =>
         && s'.model == H.Step(s.model, OpOf(s, r))
         && (Sound(s') <==> H.Legal(s.model, OpOf(s, r)))
         && (Sound(s') ==> Kept(s'.model.live, s.mem, s'.mem))
  }

  /** Nothing is said of what unsound bytes lead to. */
  ghost predicate Served(s: Snapshot, r: Request, s': Snapshot) {
    Sound(s) ==> Serves(s, r, s')
  }

  // ----- the code serves requests so -----

  ghost function Snap(list: FreeList, arena: array<byte>): Snapshot
    reads list, arena
  {
    Snapshot(arena[..], list.head, list.arenaLen, list.model)
  }

  method Allocate(list: FreeList, arena: array<byte>, size: nat, align: nat) returns (r: Option<nat>)
    requires size < U64_LIMIT && align < U64_LIMIT && list.Matches(arena) && list.Valid(arena)
    modifies list, arena
    ensures list.Valid(arena) && Sound(Snap(list, arena))
    ensures Served(old(Snap(list, arena)), Take(size, align), Snap(list, arena))
    ensures r == H.Alloc(old(list.model), size, align).1
  {
    r := list.Alloc(arena, size, align);
  }

  /** What an accepted or refused free is in the abstract. */
  lemma FreeSteps(s: Snapshot, offset: nat)
    requires Sound(s)
    ensures var v := Verdict(Headers(s.mem), s.model.frees, s.len, offset);
            var op := H.DeallocOp(offset, Claim(s, offset));
            && (H.Legal(s.model, op) <==> v.Some? || H.IsLive(s.model, offset))
            && H.Step(s.model, op) == (if H.Legal(s.model, op) then H.Dealloc(s.model, offset)
                                       else H.Give(s.model, ClaimedAt(Headers(s.mem), offset)))
            && (H.Tiled(H.Step(s.model, op)) <==> H.Legal(s.model, op))
  {
    AcceptedIff(s.model, Headers(s.mem), offset);
    H.StepTiledIff(s.model, H.DeallocOp(offset, Claim(s, offset)));
  }

  method Release(list: FreeList, arena: array<byte>, offset: nat) returns (r: Result<Unit, FreeListError>)
    requires offset < U64_LIMIT && list.Matches(arena) && list.Valid(arena)
    modifies list, arena
    ensures Served(old(Snap(list, arena)), Give(offset), Snap(list, arena))
    ensures list.Valid(arena) <==> Sound(Snap(list, arena))
  {
    ghost var s := Snap(list, arena);
    FreeSteps(s, offset);
    r := list.Dealloc(arena, offset);
    assert list.model == H.Step(s.model, OpOf(s, Give(offset)));
  }

  /** A caller's write into a payload it owns. */
  method Store(list: FreeList, arena: array<byte>, at: nat, value: byte)
    requires list.Valid(arena) && at < arena.Length && InPayload(list.model, at)
    modifies arena
    ensures list.Valid(arena) && Served(old(Snap(list, arena)), Write(at, value), Snap(list, arena))
  {
    ghost var was := arena[..];
    arena[at] := value;
    PayloadWritesHarmless(list.model, was, arena[..], list.head);
  }

  // ----- runs -----

  /** Any requests in any order. */
  ghost predicate InRun(ss: seq<Snapshot>, rs: seq<Request>) {
    |ss| == |rs| + 1 && Sound(ss[0]) && forall n :: 0 <= n < |rs| ==> Served(ss[n], rs[n], ss[n + 1])
  }

  /** Anything but a free that the checks accept and `alloc` never answered. */
  ghost predicate Legal(s: Snapshot, r: Request) {
    r.Write? || H.Legal(s.model, OpOf(s, r))
  }

  lemma ServedSound(s: Snapshot, r: Request, s': Snapshot)
    requires Sound(s) && Served(s, r, s')
    ensures Sound(s') <==> Legal(s, r)
  {
    if r.Write? {
      PayloadWritesHarmless(s.model, s.mem, s'.mem, s.head);
    }
  }

  /** The requests among the first `n` that are not writes, with what the bytes claimed at the time. */
  ghost function Ops(ss: seq<Snapshot>, rs: seq<Request>, n: nat): seq<H.Op>
    requires n <= |rs| < |ss|
  {
    if n == 0 then [] else Ops(ss, rs, n - 1) + if rs[n - 1].Write? then [] else [OpOf(ss[n - 1], rs[n - 1])]
  }

  lemma {:induction false} RunSnoc(h: H.Heap, ops: seq<H.Op>, op: H.Op)
    ensures H.Run(h, ops + [op]) == H.Step(H.Run(h, ops), op)
    ensures H.LegalRun(h, ops + [op]) <==> H.LegalRun(h, ops) && H.Legal(H.Run(h, ops), op)
    decreases |ops|
  {
    if ops == [] {
      assert [op][1..] == [];
    } else {
      RunSnoc(H.Step(h, ops[0]), ops[1..], op);
      assert (ops + [op])[1..] == ops[1..] + [op];
    }
  }

  /** The bytes follow the abstract heap through every legal run, whatever callers write in between. */
  lemma {:induction false} RunRefines(ss: seq<Snapshot>, rs: seq<Request>, n: nat)
    requires InRun(ss, rs) && n <= |rs| && forall k :: 0 <= k < n ==> Legal(ss[k], rs[k])
    ensures Sound(ss[n]) && ss[n].model == H.Run(ss[0].model, Ops(ss, rs, n))
    ensures H.LegalRun(ss[0].model, Ops(ss, rs, n))
  {
    if n == 0 {
    } else {
      RunRefines(ss, rs, n - 1);
      ServedSound(ss[n - 1], rs[n - 1], ss[n]);
      if rs[n - 1].Write? {
        assert Ops(ss, rs, n) == Ops(ss, rs, n - 1);
      } else {
        RunSnoc(ss[0].model, Ops(ss, rs, n - 1), OpOf(ss[n - 1], rs[n - 1]));
      }
    }
  }

  /** And they hold a tiled heap throughout if and only if the run is legal. */
  lemma {:induction false} RunSoundIff(ss: seq<Snapshot>, rs: seq<Request>, n: nat)
    requires InRun(ss, rs) && n <= |rs|
    ensures (forall k :: 0 <= k <= n ==> Sound(ss[k])) <==> forall k :: 0 <= k < n ==> Legal(ss[k], rs[k])
  {
    if n == 0 {
    } else {
      RunSoundIff(ss, rs, n - 1);
      if forall k :: 0 <= k <= n - 1 ==> Sound(ss[k]) {
        ServedSound(ss[n - 1], rs[n - 1], ss[n]);
      }
    }
  }

  ghost predicate LegalUpTo(ss: seq<Snapshot>, rs: seq<Request>, n: nat) {
    InRun(ss, rs) && n <= |rs| && forall k :: 0 <= k < n ==> Legal(ss[k], rs[k])
  }

  lemma SoundUpTo(ss: seq<Snapshot>, rs: seq<Request>, n: nat, k: nat)
    requires LegalUpTo(ss, rs, n) && k <= n
    ensures Sound(ss[k]) && (k < n ==> Served(ss[k], rs[k], ss[k + 1]))
  {
    RunRefines(ss, rs, k);
  }

  /** Over a legal run, block `b` stays live from state `i` to state `j` and nobody writes to its byte `x`. */
  ghost predicate LeftAlone(ss: seq<Snapshot>, rs: seq<Request>, i: nat, j: nat, b: Span, x: nat) {
    && i <= j && LegalUpTo(ss, rs, j) && b.Contains(x)
    && (forall k :: i <= k <= j ==> b in ss[k].model.live)
    && forall k :: i <= k < j ==> !(rs[k].Write? && rs[k].at == x)
  }

  lemma OneKept(ss: seq<Snapshot>, rs: seq<Request>, i: nat, j: nat, b: Span, x: nat, k: nat)
    requires LeftAlone(ss, rs, i, j, b, x) && i <= k <= j
    ensures x < |ss[k].mem| && (k < j ==> |ss[k].mem| == |ss[k + 1].mem| && ss[k + 1].mem[x] == ss[k].mem[x])
  {
    SoundUpTo(ss, rs, j, k);
    assert b in ss[k].model.live;
    InArena(ss[k], b, x);
    if k < j {
      SoundUpTo(ss, rs, j, k + 1);
      assert b in ss[k + 1].model.live;
      ByteKept(ss[k], rs[k], ss[k + 1], b, x);
    }
  }

  /** The byte at `x` is the same from state `i` to state `n`. */
  ghost predicate Same(ss: seq<Snapshot>, i: nat, n: nat, x: nat) {
    i <= n < |ss| && x < |ss[i].mem| == |ss[n].mem| && ss[n].mem[x] == ss[i].mem[x]
  }

  ghost predicate StepSame(ss: seq<Snapshot>, k: nat, x: nat) { Same(ss, k, k + 1, x) }

  lemma {:induction false} SameUpTo(ss: seq<Snapshot>, i: nat, n: nat, x: nat)
    requires i <= n < |ss| && x < |ss[i].mem| && forall k :: i <= k < n ==> StepSame(ss, k, x)
    ensures Same(ss, i, n, x)
    decreases n
  {
    if i == n {
    } else {
      SameUpTo(ss, i, n - 1, x);
      assert StepSame(ss, n - 1, x);
    }
  }

  /** What a caller wrote into a block stays there while the block is live, whoever else allocates, frees and writes. */
  lemma PayloadKept(ss: seq<Snapshot>, rs: seq<Request>, i: nat, j: nat, b: Span, x: nat)
    requires LeftAlone(ss, rs, i, j, b, x)
    ensures Same(ss, i, j, x)
  {
    OneKept(ss, rs, i, j, b, x, i);
    forall k | i <= k < j ensures StepSame(ss, k, x) {
      OneKept(ss, rs, i, j, b, x, k);
    }
    SameUpTo(ss, i, j, x);
  }

  lemma InArena(s: Snapshot, b: Span, x: nat)
    requires Sound(s) && b in s.model.live && b.Contains(x)
    ensures x < |s.mem|
  {
  }

  lemma ByteKept(s: Snapshot, r: Request, s': Snapshot, b: Span, x: nat)
    requires Sound(s) && Sound(s') && Served(s, r, s') && b in s.model.live && b in s'.model.live && b.Contains(x)
    requires !(r.Write? && r.at == x)
    ensures x < |s.mem| == |s'.mem| && s'.mem[x] == s.mem[x]
  {
    assert H.LiveCovers(s.model.live, x) && H.LiveCovers(s'.model.live, x);
  }
}

/** Page-table entries, their 64-bit encoding, and the byte arena that holds them. */
module PageEntries {
  import opened LittleEndian
  import opened MemoryMap

  const BLOCK_SIZE: nat := 0x20_0000
  const ENTRIES: nat := 512
  // Physical addresses are below 2^52.
  const PHYS_LIMIT: nat := 0x10_0000_0000_0000

  /** The bits of an entry that translation reads; `addr` is bits 12 to 51. */
  datatype Pte = Pte(present: bool, writable: bool, user: bool, large: bool, addr: nat)

  const Empty: Pte := Pte(false, false, false, false, 0)

  function Flag(b: bool, weight: nat): nat {
    if b then weight else 0
  }

  predicate Encodable(p: Pte) {
    p.addr < PHYS_LIMIT && p.addr % PAGE_SIZE == 0
  }

  /** `addr | PRESENT | ...`: the flags fit below an aligned address, so the bits are disjoint. */
  function EncodePte(p: Pte): nat {
    p.addr + Flag(p.present, 1) + Flag(p.writable, 2) + Flag(p.user, 4) + Flag(p.large, 128)
  }

  function DecodePte(e: nat): Pte {
    Pte(e % 2 == 1, e / 2 % 2 == 1, e / 4 % 2 == 1, e / 128 % 2 == 1, e % PHYS_LIMIT / PAGE_SIZE * PAGE_SIZE)
  }

  /** Low bits of a multiple of the page size plus `f` are the bits of `f`. */
  lemma LowBits(k: nat, f: nat, e: nat)
    requires e == PAGE_SIZE * k + f && f < PAGE_SIZE
    ensures e % 2 == f % 2 && e / 2 % 2 == f / 2 % 2 && e / 4 % 2 == f / 4 % 2 && e / 128 % 2 == f / 128 % 2
  {
    HalfBits(e, f, 2048 * k, 2);
    HalfBits(e, f, 1024 * k, 4);
    HalfBits(e, f, 32 * k, 128);
  }

  lemma HalfBits(e: nat, f: nat, m: nat, w: nat)
    requires w in {2, 4, 128} && m % 2 == 0 && e == w * m + f
    ensures e / w % 2 == f / w % 2
  {
    assert e / w == m + f / w;
  }

  lemma HighBits(k: nat, f: nat, e: nat)
    requires e == PAGE_SIZE * k + f && f < PAGE_SIZE && PAGE_SIZE * k < PHYS_LIMIT
    ensures e < PHYS_LIMIT && e % PHYS_LIMIT / PAGE_SIZE * PAGE_SIZE == PAGE_SIZE * k
  {
    assert e < PHYS_LIMIT;
    assert e % PHYS_LIMIT == e;
  }

  function Flags(p: Pte): nat {
    Flag(p.present, 1) + Flag(p.writable, 2) + Flag(p.user, 4) + Flag(p.large, 128)
  }

  lemma FlagBits(p: Pte)
    ensures var f := Flags(p);
            && f < PAGE_SIZE && (f % 2 == 1 <==> p.present) && (f / 2 % 2 == 1 <==> p.writable)
            && (f / 4 % 2 == 1 <==> p.user) && (f / 128 % 2 == 1 <==> p.large)
  {
  }

  lemma DecodeEncodePte(p: Pte)
    requires Encodable(p)
    ensures DecodePte(EncodePte(p)) == p && EncodePte(p) < PHYS_LIMIT
  {
    var k, e := p.addr / PAGE_SIZE, EncodePte(p);
    FlagBits(p);
    LowBits(k, Flags(p), e);
    HighBits(k, Flags(p), e);
  }

  /** `e | USER` where the bit is clear. */
  lemma SetUserBit(e: nat)
    requires !DecodePte(e).user
    ensures DecodePte(e + 4) == DecodePte(e).(user := true)
  {
    var k, f := e / PAGE_SIZE, e % PAGE_SIZE;
    LowBits(k, f, e);
    UserBit(f);
    LowBits(k, f + 4, e + 4);
    SameFrame(e, f);
  }

  lemma UserBit(f: nat)
    requires f < PAGE_SIZE && f / 4 % 2 == 0
    ensures f + 4 < PAGE_SIZE && (f + 4) % 2 == f % 2 && (f + 4) / 2 % 2 == f / 2 % 2
    ensures (f + 4) / 4 % 2 == 1 && (f + 4) / 128 % 2 == f / 128 % 2
  {
    var m, r := f / 8, f % 8;
    LowThree(f, m, r);
    LowThree(f + 4, m, r + 4);
  }

  /** Bits of a number from its part above bit 2 and the rest. */
  lemma LowThree(f: nat, m: nat, r: nat)
    requires f == 8 * m + r && r < 8 && f < PAGE_SIZE
    ensures f % 2 == r % 2 && f / 2 % 2 == r / 2 % 2 && f / 4 % 2 == r / 4 && f / 128 == m / 16
  {
    assert f / 4 == 2 * m + r / 4;
    assert f / 2 == 4 * m + r / 2;
  }

  lemma SameFrame(e: nat, f: nat)
    requires f == e % PAGE_SIZE && f + 4 < PAGE_SIZE
    ensures (e + 4) % PHYS_LIMIT / PAGE_SIZE == e % PHYS_LIMIT / PAGE_SIZE
  {
    var m := e % PHYS_LIMIT;
    assert m % PAGE_SIZE == f;
    assert (e + 4) % PHYS_LIMIT == m + 4;
  }

  // ----- the arena -----

  function Word(mem: seq<byte>, k: nat): nat
    requires 8 * k + 8 <= |mem|
  {
    Decode(mem[8 * k..8 * k + 8])
  }

  /** The arena as a sequence of entries, eight bytes each. */
  ghost function Entries(mem: seq<byte>): (view: seq<Pte>)
    ensures |view| == |mem| / 8
  {
    EntriesBelow(mem, |mem| / 8)
  }

  ghost function EntriesBelow(mem: seq<byte>, n: nat): (view: seq<Pte>)
    requires 8 * n <= |mem|
    ensures |view| == n
  {
    if n == 0 then [] else EntriesBelow(mem, n - 1) + [DecodePte(Word(mem, n - 1))]
  }

  lemma {:induction false} EntriesBelowAt(mem: seq<byte>, n: nat, k: nat)
    requires k < n && 8 * n <= |mem|
    ensures EntriesBelow(mem, n)[k] == DecodePte(Word(mem, k))
  {
    if k == n - 1 {
    } else {
      EntriesBelowAt(mem, n - 1, k);
    }
  }

  lemma EntriesAt(mem: seq<byte>, k: nat)
    requires k < |mem| / 8
    ensures Entries(mem)[k] == DecodePte(Word(mem, k))
  {
    EntriesBelowAt(mem, |mem| / 8, k);
  }

  lemma SameBytesSameEntry(mem: seq<byte>, mem': seq<byte>, k: nat)
    requires |mem| == |mem'| && k < |mem| / 8
    requires forall x :: 8 * k <= x < 8 * k + 8 ==> mem[x] == mem'[x]
    ensures Entries(mem)[k] == Entries(mem')[k]
  {
    EntriesAt(mem, k);
    EntriesAt(mem', k);
    assert mem[8 * k..8 * k + 8] == mem'[8 * k..8 * k + 8];
  }

  /** Writes one entry in place. */
  method WriteWord(arena: array<byte>, k: nat, e: nat)
    requires k < arena.Length / 8 && e < U64_LIMIT
    modifies arena
    ensures Entries(arena[..]) == old(Entries(arena[..]))[k := DecodePte(e)]
  {
    ghost var before := arena[..];
    Limits();
    Store(arena, 8 * k, 8, e);
    EntriesAt(arena[..], k);
    assert arena[..][8 * k..8 * k + 8] == arena[8 * k..8 * k + 8];
    forall j | 0 <= j < arena.Length / 8 && j != k
      ensures Entries(arena[..])[j] == Entries(before)[j]
    {
      SameBytesSameEntry(before, arena[..], j);
    }
  }

  method WriteEntry(arena: array<byte>, k: nat, p: Pte)
    requires k < arena.Length / 8 && Encodable(p)
    modifies arena
    ensures Entries(arena[..]) == old(Entries(arena[..]))[k := p]
  {
    DecodeEncodePte(p);
    WriteWord(arena, k, EncodePte(p));
  }

  method ReadWord(arena: array<byte>, k: nat) returns (e: nat)
    requires k < arena.Length / 8
    ensures e < U64_LIMIT && DecodePte(e) == Entries(arena[..])[k]
  {
    EntriesAt(arena[..], k);
    assert arena[..][8 * k..8 * k + 8] == arena[8 * k..8 * k + 8];
    Limits();
    e := Decode(arena[8 * k..8 * k + 8]);
  }

  /** Zeroes the bytes of `n` entries from `first` on. */
  method ClearEntries(arena: array<byte>, first: nat, n: nat)
    requires first + n <= arena.Length / 8
    modifies arena
    ensures |Entries(arena[..])| == old(|Entries(arena[..])|)
    ensures forall k :: 0 <= k < arena.Length / 8 ==>
                        Entries(arena[..])[k] == if first <= k < first + n then Empty else old(Entries(arena[..]))[k]
  {
    ghost var before := arena[..];
    for x := 8 * first to 8 * (first + n)
      invariant forall y :: 0 <= y < arena.Length ==> arena[y] == if 8 * first <= y < x then 0 else before[y]
    {
      arena[x] := 0;
    }
    forall k | 0 <= k < arena.Length / 8
      ensures Entries(arena[..])[k] == if first <= k < first + n then Empty else Entries(before)[k]
    {
      if first <= k < first + n {
        EntriesAt(arena[..], k);
        DecodeZeros(arena[..][8 * k..8 * k + 8]);
        assert DecodePte(0) == Empty;
      } else {
        SameBytesSameEntry(before, arena[..], k);
      }
    }
  }
}

/** One bit per frame, eight to a byte, seen as a sequence of booleans. */
module Bitmap {
  function Mask(i: nat): bv8
    requires i < 8
  {
    match i
    case 0 => 1
    case 1 => 2
    case 2 => 4
    case 3 => 8
    case 4 => 16
    case 5 => 32
    case 6 => 64
    case _ => 128
  }

  predicate GetBit(b: bv8, i: nat)
    requires i < 8
  {
    b & Mask(i) != 0
  }

  function PutBit(b: bv8, i: nat, value: bool): bv8
    requires i < 8
  {
    if value then b | Mask(i) else b & !Mask(i)
  }

  lemma PutThenGet(b: bv8, i: nat, j: nat, value: bool)
    requires i < 8 && j < 8
    ensures GetBit(PutBit(b, i, value), j) == if i == j then value else GetBit(b, j)
  {
    if i != j {
      assert Mask(i) & Mask(j) == 0;
    }
  }

  lemma BitsDetermine(a: bv8, b: bv8)
    requires forall i :: 0 <= i < 8 ==> GetBit(a, i) == GetBit(b, i)
    ensures a == b
  {
    assert GetBit(a, 0) == GetBit(b, 0) && GetBit(a, 1) == GetBit(b, 1);
    assert GetBit(a, 2) == GetBit(b, 2) && GetBit(a, 3) == GetBit(b, 3);
    assert GetBit(a, 4) == GetBit(b, 4) && GetBit(a, 5) == GetBit(b, 5);
    assert GetBit(a, 6) == GetBit(b, 6) && GetBit(a, 7) == GetBit(b, 7);
  }

  /** Bit `index` of the buffer. */
  predicate BitAt(bytes: seq<bv8>, index: nat)
    requires index < 8 * |bytes|
  {
    GetBit(bytes[index / 8], index % 8)
  }

  /** The first `n` bits. */
  ghost function Bits(bytes: seq<bv8>, n: nat): (bits: seq<bool>)
    requires n <= 8 * |bytes|
    ensures |bits| == n
  {
    if n == 0 then [] else Bits(bytes, n - 1) + [BitAt(bytes, n - 1)]
  }

  lemma {:induction false} BitsAt(bytes: seq<bv8>, n: nat, i: nat)
    requires i < n <= 8 * |bytes|
    ensures Bits(bytes, n)[i] == BitAt(bytes, i)
  {
    if i == n - 1 {
    } else {
      BitsAt(bytes, n - 1, i);
    }
  }

  lemma PutAt(bytes: seq<bv8>, index: nat, value: bool, j: nat)
    requires index < 8 * |bytes| && j < 8 * |bytes|
    ensures var bytes' := bytes[index / 8 := PutBit(bytes[index / 8], index % 8, value)];
            BitAt(bytes', j) == if j == index then value else BitAt(bytes, j)
  {
    if j / 8 == index / 8 {
      PutThenGet(bytes[index / 8], index % 8, j % 8, value);
    }
  }

  lemma PutBits(bytes: seq<bv8>, n: nat, index: nat, value: bool)
    requires index < n <= 8 * |bytes|
    ensures Bits(bytes[index / 8 := PutBit(bytes[index / 8], index % 8, value)], n) == Bits(bytes, n)[index := value]
  {
    var bytes' := bytes[index / 8 := PutBit(bytes[index / 8], index % 8, value)];
    forall j | 0 <= j < n
      ensures Bits(bytes', n)[j] == Bits(bytes, n)[index := value][j]
    {
      BitsAt(bytes, n, j);
      BitsAt(bytes', n, j);
      PutAt(bytes, index, value, j);
    }
  }

  /** Sets or clears one bit in place. */
  method SetBit(bytes: array<bv8>, index: nat, value: bool, ghost n: nat)
    requires index < n <= 8 * bytes.Length
    modifies bytes
    ensures Bits(bytes[..], n) == old(Bits(bytes[..], n))[index := value]
    ensures forall j :: n <= j < 8 * bytes.Length ==> BitAt(bytes[..], j) == old(BitAt(bytes[..], j))
  {
    PutBits(bytes[..], n, index, value);
    forall j | n <= j < 8 * bytes.Length
      ensures BitAt(bytes[..][index / 8 := PutBit(bytes[index / 8], index % 8, value)], j) == BitAt(bytes[..], j)
    {
      PutAt(bytes[..], index, value, j);
    }
    bytes[index / 8] := PutBit(bytes[index / 8], index % 8, value);
  }

  /** Equal bits, equal bytes. */
  lemma SameBitsSameBytes(a: seq<bv8>, b: seq<bv8>)
    requires |a| == |b| && forall j :: 0 <= j < 8 * |a| ==> BitAt(a, j) == BitAt(b, j)
    ensures a == b
  {
    forall k | 0 <= k < |a|
      ensures a[k] == b[k]
    {
      forall i | 0 <= i < 8
        ensures GetBit(a[k], i) == GetBit(b[k], i)
      {
        assert BitAt(a, 8 * k + i) == BitAt(b, 8 * k + i);
      }
      BitsDetermine(a[k], b[k]);
    }
  }
}

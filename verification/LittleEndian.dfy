/** Little-endian integers inside byte buffers: `to_le_bytes` and `from_le_bytes`. */
module LittleEndian {
  import opened Arithmetic

  newtype byte = x: int | 0 <= x < 256

  // One past the largest `u32` and `u64` (`usize` is 64 bits wide on this target).
  const U32_LIMIT: nat := 0x1_0000_0000
  const U64_LIMIT: nat := 0x1_0000_0000_0000_0000

  function Pow256(n: nat): (p: nat)
    ensures 0 < p
  {
    if n == 0 then 1 else 256 * Pow256(n - 1)
  }

  function Decode(s: seq<byte>): (v: nat)
    ensures v < Pow256(|s|)
  {
    if s == [] then 0 else s[0] as nat + 256 * Decode(s[1..])
  }

  function Encode(v: nat, n: nat): (s: seq<byte>)
    ensures |s| == n
  {
    if n == 0 then [] else [(v % 256) as byte] + Encode(v / 256, n - 1)
  }

  lemma {:induction false} DecodeEncode(v: nat, n: nat)
    requires v < Pow256(n)
    ensures Decode(Encode(v, n)) == v
  {
    if n == 0 {
    } else {
      DecodeEncode(v / 256, n - 1);
      assert Encode(v, n)[1..] == Encode(v / 256, n - 1);
    }
  }

  /** Little-endian: byte `k` has weight 256 to the power of `k`. */
  lemma {:induction false} ByteOf(v: nat, n: nat, k: nat)
    requires k < n
    ensures Encode(v, n)[k] as nat == v / Pow256(k) % 256
  {
    if k == 0 {
    } else {
      ByteOf(v / 256, n - 1, k - 1);
      DivTwice(v, Pow256(k - 1));
    }
  }

  lemma DivTwice(v: nat, b: nat)
    requires 0 < b
    ensures v / 256 / b == v / (256 * b)
  {
    var q := v / 256;
    var s, t := q / b, q % b;
    assert v == s * (256 * b) + (256 * t + v % 256) by {
      assert q == s * b + t;
      assert s * (256 * b) == 256 * (s * b);
    }
    DivModUnique(v, 256 * b, s, 256 * t + v % 256);
  }

  lemma {:induction false} DecodeZeros(s: seq<byte>)
    requires forall i :: 0 <= i < |s| ==> s[i] == 0
    ensures Decode(s) == 0
  {
    if s == [] {
    } else {
      DecodeZeros(s[1..]);
    }
  }

  lemma Limits()
    ensures Pow256(4) == U32_LIMIT
    ensures Pow256(8) == U64_LIMIT
  {
    assert Pow256(2) == 0x1_0000;
    assert Pow256(4) == 0x1_0000 * Pow256(2);
    assert Pow256(6) == 0x1_0000 * Pow256(4);
    assert Pow256(8) == 0x1_0000 * Pow256(6);
  }

  /** Writes `v` as `n` little-endian bytes at `offset` and touches no other byte. */
  method Store(a: array<byte>, offset: nat, n: nat, v: nat)
    requires offset + n <= a.Length
    requires v < Pow256(n)
    modifies a
    ensures Decode(a[offset..offset + n]) == v
    ensures forall k :: 0 <= k < a.Length && !(offset <= k < offset + n) ==> a[k] == old(a[k])
  {
    var bytes := Encode(v, n);
    for i := 0 to n
      invariant forall k :: 0 <= k < i ==> a[offset + k] == bytes[k]
      invariant forall k :: 0 <= k < a.Length && !(offset <= k < offset + n) ==> a[k] == old(a[k])
    {
      a[offset + i] := bytes[i];
    }
    assert a[offset..offset + n] == bytes;
    DecodeEncode(v, n);
  }
}

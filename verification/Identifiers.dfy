/** Entity ids and sequence numbers travel as minimal big-endian byte strings: `uint64_to_bytes_big_endian`
    of src/sender_machine.c and `bytes_to_ulong` of src/cfdp_core.c. */
module Identifiers {
  import opened Integers

  const UINT56: nat := 0x100_0000_0000_0000

  /** The bytes of v without leading zero bytes. */
  function MinimalBytes(v: nat): seq<bv8> {
    if v == 0 then [] else MinimalBytes(v / 0x100) + [Cast(v)]
  }

  /** The big-endian value of the bytes. */
  function ValueOf(bytes: seq<bv8>): nat {
    if bytes == [] then 0 else 0x100 * ValueOf(bytes[..|bytes| - 1]) + bytes[|bytes| - 1] as nat
  }

  function Pow256(n: nat): nat {
    if n == 0 then 1 else 0x100 * Pow256(n - 1)
  }

  /** v shifted right by n bytes */
  function ByteShift(v: nat, n: nat): nat {
    if n == 0 then v else ByteShift(v / 0x100, n - 1)
  }

  lemma {:induction false} ByteShiftNext(v: nat, n: nat)
    ensures ByteShift(v, n + 1) == ByteShift(v, n) / 0x100
  {
    if n > 0 { ByteShiftNext(v / 0x100, n - 1); }
  }

  lemma {:induction false} MinimalBytesLength(v: nat, n: nat)
    requires ByteShift(v, n) == 0 && (n > 0 ==> ByteShift(v, n - 1) != 0)
    ensures |MinimalBytes(v)| == n
  {
    if n > 0 {
      ByteShiftOfZero(n - 1);
      MinimalBytesLength(v / 0x100, n - 1);
    }
  }

  lemma {:induction false} ByteShiftOfZero(n: nat)
    ensures ByteShift(0, n) == 0
  {
    if n > 0 { ByteShiftOfZero(n - 1); }
  }

  lemma {:induction false} ByteShiftBound(v: nat, n: nat, m: nat)
    requires v < Pow256(n + m)
    ensures ByteShift(v, n) < Pow256(m)
  {
    if n > 0 { ByteShiftBound(v / 0x100, n - 1, m); }
  }

  /** Byte i from the end is the low byte of v shifted right by i bytes. */
  lemma {:induction false} MinimalBytesAt(v: nat, i: nat)
    requires i < |MinimalBytes(v)|
    ensures MinimalBytes(v)[|MinimalBytes(v)| - 1 - i] == Cast(ByteShift(v, i))
  {
    hide Cast;
    if i > 0 { MinimalBytesAt(v / 0x100, i - 1); }
  }

  /** The number of bytes first, then the bytes from the last one back. */
  method BytesBigEndian(data: nat, result: array<bv8>) returns (size: nat)
    requires data < UINT56 && result.Length >= 7
    modifies result
    ensures size == |MinimalBytes(data)| && size <= 7 && result[..size] == MinimalBytes(data)
  {
    hide Cast, MinimalBytes;
    size := 0;
    var rest := data;
    assert Pow256(7) == UINT56;
    while rest != 0
      invariant size <= 7 && rest == ByteShift(data, size)
      invariant size > 0 ==> ByteShift(data, size - 1) != 0
      decreases rest
    {
      ByteShiftNext(data, size);
      ByteShiftBound(data, size, 7 - size);
      size := size + 1;
      rest := rest / 0x100;
    }
    MinimalBytesLength(data, size);
    var left := data;
    for i := 0 to size
      invariant left == ByteShift(data, i)
      invariant forall k | size - i <= k < size :: result[k] == MinimalBytes(data)[k]
    {
      result[size - 1 - i] := Cast(left);
      MinimalBytesAt(data, i);
      ByteShiftNext(data, i);
      left := left / 0x100;
    }
  }

  /** At most eight bytes are taken. */
  method BytesToULong(data: seq<bv8>, size: nat) returns (result: nat)
    requires size <= |data|
    ensures result == ValueOf(data[..if size < 8 then size else 8])
  {
    result := 0;
    var i := 0;
    while i < size && i < 8
      invariant i <= size && i <= 8 && result == ValueOf(data[..i]) && result < Pow256(i)
    {
      assert data[..i + 1][..i] == data[..i];
      FitsInULong(result, data[i], i);
      result := (result * 0x100) % UINT64 + data[i] as nat;
      i := i + 1;
    }
  }

  lemma FitsInULong(v: nat, b: bv8, i: nat)
    requires v < Pow256(i) && i < 8
    ensures (v * 0x100) % UINT64 == v * 0x100 && v * 0x100 + b as nat < Pow256(i + 1)
  {
    assert Pow256(8) == UINT64;
    PowersGrow(i + 1, 8);
  }

  lemma {:induction false} PowersGrow(a: nat, b: nat)
    requires a <= b
    ensures 0 < Pow256(a) <= Pow256(b)
  {
    if a > 0 { PowersGrow(a - 1, b - 1); }
    else if b > 0 { PowersGrow(a, b - 1); }
  }

  /** Every identifier from 1 to 2^56 - 1 takes 1 to 7 bytes, the first of them not zero, and is read
      back. */
  lemma IdentifierRoundTrip(v: nat)
    requires 0 < v < UINT56
    ensures 1 <= |MinimalBytes(v)| <= 7 && MinimalBytes(v)[0] != 0
    ensures ValueOf(MinimalBytes(v)) == v
  {
    MinimalBytesOf(v, 7);
    ValueOfMinimalBytes(v);
    assert Pow256(7) == UINT56;
  }

  lemma {:induction false} MinimalBytesOf(v: nat, n: nat)
    requires 0 < v < Pow256(n)
    ensures 1 <= |MinimalBytes(v)| <= n && MinimalBytes(v)[0] != 0
  {
    hide Cast;
    CastValue(v);
    if v < 0x100 {
      assert MinimalBytes(v / 0x100) == [] && MinimalBytes(v) == [Cast(v)];
      assert MinimalBytes(v)[..0] == [];
    } else {
      MinimalBytesOf(v / 0x100, n - 1);
      assert MinimalBytes(v)[..|MinimalBytes(v)| - 1] == MinimalBytes(v / 0x100);
    }
  }

  lemma {:induction false} ValueOfMinimalBytes(v: nat)
    ensures ValueOf(MinimalBytes(v)) == v
  {
    hide Cast;
    if v > 0 {
      CastValue(v);
      ValueOfMinimalBytes(v / 0x100);
      assert MinimalBytes(v)[..|MinimalBytes(v)| - 1] == MinimalBytes(v / 0x100);
    }
  }

  /** Identifiers are told apart by their bytes. */
  lemma MinimalBytesInjective(v: nat, w: nat)
    requires MinimalBytes(v) == MinimalBytes(w)
    ensures v == w
  {
    ValueOfMinimalBytes(v);
    ValueOfMinimalBytes(w);
  }
}

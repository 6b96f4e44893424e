/** Octet strings longer than 16K - 1 are cut into blocks of 64K, 48K, 32K or 16K, each behind a length
    byte, and end with a shorter rest behind a one- or two-byte length: section 11.9 of ITU-T X.691, as in
    dataview/asn1crt_encoding.c. */
module OctetFragments {
  import opened Bits
  import opened BitSequences
  import opened BitStreams
  import opened Integers
  import opened Pdus
  import opened PduDecoder
  import opened PduEncoder

  const BLOCK: nat := 0x4000

  /** How many times 16K the next block has. */
  function BlockUnits(n: nat): (k: nat)
    requires n >= BLOCK
    ensures 1 <= k <= 4 && BLOCK * k <= n
  {
    if n >= 0x10000 then 4 else if n >= 0xC000 then 3 else if n >= 0x8000 then 2 else 1
  }

  ghost function LengthField(n: nat): seq<bool>
    requires n < BLOCK
  {
    if n <= 0x7F then NatBits(n, 8) else [true] + NatBits(n, 15)
  }

  ghost function FragmentBits(arr: seq<bv8>): seq<bool> {
    if |arr| >= BLOCK then
      var k := BlockUnits(|arr|);
      NatBits(0xC0 + k, 8) + (BitsOf(arr[..BLOCK * k]) + FragmentBits(arr[BLOCK * k..]))
    else LengthField(|arr|) + BitsOf(arr)
  }

  /** The octets from pos on, of which taken have been read before; at most max in all. */
  ghost function GetFragments(x: seq<bool>, pos: nat, taken: nat, max: nat): Read<seq<bv8>>
    decreases |x| - pos
  {
    var (n, pos) :- GetNat(x, pos, 8);
    AfterLength(x, pos, n, taken, max)
  }

  /** What follows the length byte n. */
  ghost function AfterLength(x: seq<bool>, pos: nat, n: nat, taken: nat, max: nat): Read<seq<bv8>>
    decreases |x| - pos
  {
    if n >= 0xC0 then
      if !(0xC1 <= n <= 0xC4) || taken + BLOCK * (n - 0xC0) > max then Failed else
      var (block, pos) :- GetBytes(x, pos, BLOCK * (n - 0xC0));
      var (rest, pos) :- GetFragments(x, pos, taken + BLOCK * (n - 0xC0), max);
      Got(block + rest, pos)
    else if n >= 0x80 then
      var (low, pos) :- GetNat(x, pos, 8);
      GetLast(x, pos, (n * 0x100 + low) % 0x8000, taken, max)
    else GetLast(x, pos, n, taken, max)
  }

  ghost function GetLast(x: seq<bool>, pos: nat, n: nat, taken: nat, max: nat): Read<seq<bv8>> {
    if taken + n > max then Failed else
    var (last, pos) :- GetBytes(x, pos, n);
    if 1 <= taken + n then Got(last, pos) else Failed
  }

  /** Octet strings of every length from 1 to max are read back, whatever follows. */
  lemma {:induction false} FragmentsRoundTrip(x: seq<bool>, pos: nat, arr: seq<bv8>, taken: nat, max: nat)
    requires Holds(x, pos, FragmentBits(arr)) && 1 <= taken + |arr| <= max
    ensures GetFragments(x, pos, taken, max) == Got(arr, pos + |FragmentBits(arr)|)
    decreases |arr|
  {
    hide Holds, NatBits, BitsOf, GetNat, GetBytes, Pow2;
    if |arr| >= BLOCK {
      var k := BlockUnits(|arr|);
      var block, rest := arr[..BLOCK * k], arr[BLOCK * k..];
      ByteThen(x, pos, 0xC0 + k, BitsOf(block) + FragmentBits(rest));
      BytesThen(x, pos + 8, block, FragmentBits(rest));
      FragmentsRoundTrip(x, pos + 8 + 8 * |block|, rest, taken + |block|, max);
      assert block + rest == arr;
    } else if |arr| <= 0x7F {
      ByteThen(x, pos, |arr|, BitsOf(arr));
      LastRoundTrip(x, pos + 8, arr, taken, max);
    } else {
      TwoByteLength(|arr|);
      Regroup(NatBits(0x80 + |arr| / 0x100, 8), NatBits(|arr| % 0x100, 8), BitsOf(arr));
      ByteThen(x, pos, 0x80 + |arr| / 0x100, NatBits(|arr| % 0x100, 8) + BitsOf(arr));
      ByteThen(x, pos + 8, |arr| % 0x100, BitsOf(arr));
      LastRoundTrip(x, pos + 16, arr, taken, max);
    }
  }

  lemma LastRoundTrip(x: seq<bool>, pos: nat, arr: seq<bv8>, taken: nat, max: nat)
    requires Holds(x, pos, BitsOf(arr)) && 1 <= taken + |arr| <= max
    ensures GetLast(x, pos, |arr|, taken, max) == Got(arr, pos + 8 * |arr|)
  {
    hide Holds, BitsOf, GetBytes;
    GotBytes(x, pos, arr);
  }

  /** The two-byte length field is a byte with its top bit set, and a second byte. */
  lemma TwoByteLength(n: nat)
    requires 0x80 <= n < BLOCK
    ensures [true] + NatBits(n, 15) == NatBits(0x80 + n / 0x100, 8) + NatBits(n % 0x100, 8)
    ensures ((0x80 + n / 0x100) * 0x100 + n % 0x100) % 0x8000 == n && 0x80 + n / 0x100 < 0xC0
  {
    hide NatBits, Pow2;
    Pow2Values();
    NatBitsSplit(n, 7, 8);
    ShiftRightValue(n, 8);
    NatBitsModulo(n, n % 0x100, 8);
    NatBitsSplit(0x80 + n / 0x100, 1, 7);
    ShiftRightValue(0x80 + n / 0x100, 7);
    NatBitsModulo(0x80 + n / 0x100, n / 0x100, 7);
    OneBit();
  }

  lemma OneBit()
    ensures NatBits(1, 1) == [true] && Pow2(7) == 0x80
  {}

  // ---------- encoding ----------

  method AppendOctets(s: BitStream, arr: seq<bv8>, from: nat, to: nat) returns (ok: bool)
    requires s.Valid() && s.Zeroed() && from <= to <= |arr| && s.HasRoom(8 * (to - from))
    modifies s, s.buf
    ensures ok && s.Valid() && s.Zeroed() && s.Pos() == old(s.Pos()) + 8 * (to - from)
    ensures s.Written() == old(s.Written()) + BitsOf(arr[from..to])
  {
    hide Extends, ZeroFrom, BitsOf, LowBits, BitStream.Bits;
    ok := true;
    assert arr[from..from] == [];
    var i := from;
    while i < to && ok
      invariant from <= i <= to && ok
      invariant s.Valid() && s.Zeroed() && s.Pos() == old(s.Pos()) + 8 * (i - from)
      invariant s.Written() == old(s.Written()) + BitsOf(arr[from..i])
    {
      ghost var x, p := s.Bits(), s.Pos();
      ok := s.AppendByte0(arr[i]);
      ExtendsWritten(x, s.Bits(), p, ByteBits(arr[i]));
      OneMoreOctet(arr, from, i);
      i := i + 1;
    }
  }

  lemma OneMoreOctet(arr: seq<bv8>, from: nat, i: nat)
    requires from <= i < |arr|
    ensures BitsOf(arr[from..i + 1]) == BitsOf(arr[from..i]) + ByteBits(arr[i])
  {
    hide LowBits, BitsOf;
    BitsOfBytes(arr[from..i], [arr[i]]);
    BitsOfByte(arr[i]);
    assert arr[from..i + 1] == arr[from..i] + [arr[i]];
  }

  /** A whole number in the range 0..0xFF or 0..0x7FFF takes 8 or 15 bits. */
  lemma RangeBits()
    ensures BitLength(0xFF) == 8 && BitLength(0x7FFF) == 15
  {
    Pow2Values();
    assert Pow2(7) == 0x80 && Pow2(14) == 0x4000 && Pow2(15) == 0x8000;
    BitLengthIs(0xFF, 8); BitLengthIs(0x7FFF, 15);
  }

  /** One block behind its length byte. */
  method EncodeBlock(s: BitStream, arr: seq<bv8>, offset: nat) returns (ok: bool, size: nat)
    requires offset <= |arr| && |arr| - offset >= BLOCK
    requires s.Valid() && s.Zeroed() && s.HasRoom(|FragmentBits(arr[offset..])|)
    modifies s, s.buf
    ensures ok && offset < offset + size <= |arr| && s.Valid() && s.Zeroed() && s.HasRoom(|FragmentBits(arr[offset + size..])|)
    ensures s.Written() + FragmentBits(arr[offset + size..]) == old(s.Written()) + FragmentBits(arr[offset..])
  {
    hide Extends, ZeroFrom, BitsOf, NatBits, BitLength, FragmentBits, BitStream.Bits, BitStream.Written, BitStream.Zeroed, BitStream.Pos;
    RangeBits();
    var remaining: nat := |arr| - offset;
    size := if remaining >= 0x10000 then 0x10000 else if remaining >= 0xC000 then 0xC000 else if remaining >= 0x8000 then 0x8000 else 0x4000;
    var code := if remaining >= 0x10000 then 0xC4 else if remaining >= 0xC000 then 0xC3 else if remaining >= 0x8000 then 0xC2 else 0xC1;
    ghost var w, rest := s.Written(), arr[offset..];
    BlockFirst(rest);
    EncodeConstraintWholeNumber(s, code, 0, 0xFF);
    ok := AppendOctets(s, arr, offset, offset + size);
    assert rest[..size] == arr[offset..offset + size] && rest[size..] == arr[offset + size..];
    Regroup3(w, NatBits(code, 8), BitsOf(rest[..size]), FragmentBits(rest[size..]));
  }

  method EncodeFragments(s: BitStream, arr: seq<bv8>) returns (ok: bool)
    requires s.Valid() && s.Zeroed() && s.HasRoom(|FragmentBits(arr)|)
    modifies s, s.buf
    ensures ok && s.Valid() && s.Zeroed()
    ensures s.Written() == old(s.Written()) + FragmentBits(arr)
  {
    hide Extends, ZeroFrom, BitsOf, NatBits, BitLength, FragmentBits, LengthField, BitStream.Bits, BitStream.Written, BitStream.Zeroed, BitStream.Pos;
    RangeBits();
    ghost var w0 := s.Written();
    var remaining: nat := |arr|;
    var curOffset: nat := 0;
    ok := true;
    assert arr[0..] == arr;
    while remaining >= BLOCK && ok
      invariant ok && curOffset + remaining == |arr|
      invariant s.Valid() && s.Zeroed() && s.HasRoom(|FragmentBits(arr[curOffset..])|)
      invariant s.Written() + FragmentBits(arr[curOffset..]) == w0 + FragmentBits(arr)
      decreases remaining
    {
      var curBlockSize;
      ok, curBlockSize := EncodeBlock(s, arr, curOffset);
      curOffset := curOffset + curBlockSize;
      remaining := remaining - curBlockSize;
    }
    ghost var w, rest := s.Written(), arr[curOffset..];
    LastFirst(rest);
    ShortLength(remaining);
    if remaining <= 0x7F {
      EncodeConstraintWholeNumber(s, remaining, 0, 0xFF);
    } else {
      EncodeLongLength(s, remaining);
    }
    ok := AppendOctets(s, arr, curOffset, curOffset + remaining);
    assert arr[curOffset..curOffset + remaining] == rest;
    Regroup(w, LengthField(remaining), BitsOf(rest));
  }

  lemma ShortLength(n: nat)
    requires n < BLOCK
    ensures |LengthField(n)| == if n <= 0x7F then 8 else 16
    ensures n <= 0x7F ==> LengthField(n) == NatBits(n, 8)
  {}

  method EncodeLongLength(s: BitStream, n: nat)
    requires 0x7F < n < BLOCK && s.Valid() && s.Zeroed() && s.HasRoom(16)
    modifies s, s.buf
    ensures s.Valid() && s.Zeroed() && s.Pos() == old(s.Pos()) + 16
    ensures s.Written() == old(s.Written()) + LengthField(n)
  {
    hide Extends, ZeroFrom, NatBits, BitLength, BitStream.Bits, BitStream.Pos;
    RangeBits();
    ghost var w, x, p := s.Written(), s.Bits(), s.Pos();
    s.AppendBit(true);
    ExtendsWritten(x, s.Bits(), p, [true]);
    EncodeConstraintWholeNumber(s, n, 0, 0x7FFF);
    Regroup(w, [true], NatBits(n, 15));
  }

  lemma BlockFirst(arr: seq<bv8>)
    requires |arr| >= BLOCK
    ensures var k := BlockUnits(|arr|);
      FragmentBits(arr) == NatBits(0xC0 + k, 8) + (BitsOf(arr[..BLOCK * k]) + FragmentBits(arr[BLOCK * k..]))
  {
    hide NatBits, BitsOf;
  }

  lemma LastFirst(arr: seq<bv8>)
    requires |arr| < BLOCK
    ensures FragmentBits(arr) == LengthField(|arr|) + BitsOf(arr)
  {
    hide NatBits, BitsOf;
  }

  // ---------- decoding ----------

  method ReadOctets(s: BitStream, arr: array<bv8>, from: nat, n: nat) returns (ok: bool)
    requires s.Valid() && from + n <= arr.Length && s.buf != arr
    modifies s, arr
    ensures arr[..from] == old(arr[..from])
    ensures ok == GetBytes(old(s.Bits()), old(s.Pos()), n).Got?
    ensures ok ==> s.Valid() && s.Bits() == old(s.Bits())
    ensures ok ==> GetBytes(s.Bits(), old(s.Pos()), n) == Got(arr[from..from + n], s.Pos())
  {
    hide BitStream.Bits, BitsOf, LowBits, BytesAt;
    ghost var x, p := s.Bits(), s.Pos();
    ok := true;
    var i := 0;
    while i < n && ok
      invariant i <= n && arr[..from] == old(arr[..from])
      invariant ok ==> s.Valid() && s.Bits() == x && s.Pos() == p + 8 * i && BitsOf(arr[from..from + i]) == x[p..p + 8 * i]
      invariant !ok ==> p + 8 * n > |x|
      decreases n - i, ok
    {
      var b;
      ghost var before := arr[from..from + i];
      ok, b := s.ReadByte();
      if ok {
        arr[from + i] := b;
        assert arr[from..from + i] == before;
        OneMoreOctet(arr[..], from, from + i);
        assert arr[..][from..from + i + 1] == arr[from..from + i + 1] && arr[..][from..from + i] == arr[from..from + i];
        assert x[p..p + 8 * (i + 1)] == x[p..p + 8 * i] + x[p + 8 * i..p + 8 * i + 8];
        i := i + 1;
      }
    }
    if ok {
      BytesAtBits(x, p, n);
      BitsOfIsInjective(arr[from..from + n], BytesAt(x, p, n));
    }
  }

  ghost function Prepend(got: seq<bv8>, r: Read<seq<bv8>>): Read<seq<bv8>> {
    match r case Failed => Failed case Got(rest, pos) => Got(got + rest, pos)
  }

  lemma PrependTwice(a: seq<bv8>, b: seq<bv8>, r: Read<seq<bv8>>)
    ensures Prepend(a, Prepend(b, r)) == Prepend(a + b, r)
  {
    if r.Got? { assert a + (b + r.value) == (a + b) + r.value; }
  }

  lemma PrependNothing(r: Read<seq<bv8>>)
    ensures Prepend([], r) == r
  {
    if r.Got? { assert [] + r.value == r.value; }
  }

  lemma BlockLength(x: seq<bool>, pos: nat, n: nat, taken: nat, max: nat)
    requires n >= 0xC0
    ensures AfterLength(x, pos, n, taken, max)
         == if !(0xC1 <= n <= 0xC4) || taken + BLOCK * (n - 0xC0) > max then Failed
            else match GetBytes(x, pos, BLOCK * (n - 0xC0))
                 case Failed => Failed
                 case Got(block, p) => Prepend(block, GetFragments(x, p, taken + BLOCK * (n - 0xC0), max))
  {
    hide GetNat, BytesAt;
  }

  /** A length byte. */
  method ReadLength(s: BitStream) returns (ok: bool, n: nat)
    requires Readable(s)
    modifies s
    ensures GetNat(old(s.Bits()), old(s.Pos()), 8) == if ok then Got(n, s.Pos()) else Failed
    ensures ok ==> s.Valid() && s.Bits() == old(s.Bits()) && n < 0x100
  {
    hide BitStream.Bits, BitLength, BitsNat;
    RangeBits();
    Pow2Values();
    var v;
    ok, v := DecodeConstraintWholeNumber(s, 0, 0xFF);
    if ok { NatAtBound(s.Bits(), old(s.Pos()), 8); }
    n := if ok then v else 0;
  }

  /** The rest behind its one- or two-byte length, whose first byte is n. */
  method ReadLast(s: BitStream, arr: array<bv8>, n: nat, taken: nat, max: nat) returns (ok: bool, count: nat)
    requires Readable(s) && taken <= max <= arr.Length && s.buf != arr && n < 0xC0
    modifies s, arr
    ensures arr[..taken] == old(arr[..taken])
    ensures ok ==> 1 <= count && taken <= count <= max && s.Valid() && s.Bits() == old(s.Bits())
    ensures AfterLength(old(s.Bits()), old(s.Pos()), n, taken, max) == if ok then Got(arr[taken..count], s.Pos()) else Failed
  {
    hide BitStream.Bits, GetNat, GetBytes, GetFragments;
    count := 0;
    var remaining := n;
    if n >= 0x80 {
      var low;
      ok, low := ReadLength(s);
      if !ok {
        return;
      }
      remaining := (n * 0x100 + low) % 0x8000;
    }
    if taken + remaining > max {
      return false, 0;
    }
    ok := ReadOctets(s, arr, taken, remaining);
    if ok {
      ok := 1 <= taken + remaining <= max;
      count := taken + remaining;
    }
  }

  method DecodeFragments(s: BitStream, arr: array<bv8>, max: nat) returns (ok: bool, count: nat)
    requires Readable(s) && max <= arr.Length && s.buf != arr
    modifies s, arr
    ensures ok ==> 1 <= count <= max
    ensures GetFragments(old(s.Bits()), old(s.Pos()), 0, max) == if ok then Got(arr[..count], s.Pos()) else Failed
  {
    hide BitStream.Bits, GetNat, GetBytes, AfterLength;
    ghost var x, all := s.Bits(), GetFragments(s.Bits(), s.Pos(), 0, max);
    var n;
    count := 0;
    ok, n := ReadLength(s);
    if !ok {
      return;
    }
    var curOffset: nat := 0;
    assert arr[..0] == [];
    PrependNothing(AfterLength(x, s.Pos(), n, 0, max));
    while n >= 0xC0
      invariant s.Valid() && s.Bits() == x && n < 0x100 && curOffset <= max
      invariant Prepend(arr[..curOffset], AfterLength(x, s.Pos(), n, curOffset, max)) == all
      decreases max - curOffset
    {
      BlockLength(x, s.Pos(), n, curOffset, max);
      if n > 0xC4 || n == 0xC0 {
        return false, 0;
      }
      var curBlockSize := if n == 0xC4 then 0x10000 else if n == 0xC3 then 0xC000 else if n == 0xC2 then 0x8000 else 0x4000;
      if curOffset + curBlockSize > max {
        return false, 0;
      }
      ghost var got := arr[..curOffset];
      ok := ReadOctets(s, arr, curOffset, curBlockSize);
      if !ok {
        return;
      }
      assert arr[..curOffset + curBlockSize] == got + arr[curOffset..curOffset + curBlockSize];
      curOffset := curOffset + curBlockSize;
      ghost var p := s.Pos();
      PrependTwice(got, arr[curOffset - curBlockSize..curOffset], GetFragments(x, p, curOffset, max));
      ok, n := ReadLength(s);
      if !ok {
        return;
      }
    }
    ghost var got := arr[..curOffset];
    ok, count := ReadLast(s, arr, n, curOffset, max);
    if ok { assert arr[..count] == got + arr[curOffset..count]; }
  }
}

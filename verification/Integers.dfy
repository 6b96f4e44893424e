/** The integer coders of dataview/asn1crt_encoding.c and dataview/asn1crt_encoding_acn.c.

    Unsigned C integers are natural numbers below a power of two: `>>` is ShiftRight, `<<` and `|` of
    disjoint parts are multiplication and addition, and a `(byte)` cast is `% 0x100`. */
module Integers {
  import opened Bits
  import opened BitSequences
  import opened BitStreams

  const UINT32: nat := 0x1_0000_0000
  const UINT64: nat := 0x1_0000_0000_0000_0000

  /** The number of bits of v without leading zeros. */
  function BitLength(v: nat): nat {
    if v == 0 then 0 else 1 + BitLength(v / 2)
  }

  lemma {:induction false} BitLengthBounds(v: nat)
    ensures v < Pow2(BitLength(v))
    ensures v > 0 ==> BitLength(v) > 0 && Pow2(BitLength(v) - 1) <= v
  {
    if v > 0 { BitLengthBounds(v / 2); }
  }

  lemma {:induction false} BitLengthIs(v: nat, n: nat)
    requires n > 0 && Pow2(n - 1) <= v < Pow2(n)
    ensures BitLength(v) == n
  {
    if n > 1 {
      BitLengthIs(v / 2, n - 1);
    } else {
      assert Pow2(1) == 2 && v == 1 && BitLength(v / 2) == 0;
    }
  }

  lemma {:induction false} BitLengthAtMost(v: nat, n: nat)
    requires v < Pow2(n)
    ensures BitLength(v) <= n
  {
    if v > 0 { BitLengthAtMost(v / 2, n - 1); }
  }

  lemma {:induction false} BitLengthShift(v: nat, n: nat)
    requires v >= Pow2(n)
    ensures BitLength(v) == n + BitLength(ShiftRight(v, n))
  {
    if n > 0 { BitLengthShift(v / 2, n - 1); }
  }

  lemma {:induction false} ShiftTwice(v: nat, a: nat, b: nat)
    ensures ShiftRight(ShiftRight(v, a), b) == ShiftRight(v, a + b)
  {
    if a > 0 { ShiftTwice(v / 2, a - 1, b); }
  }

  /** (byte)v */
  function Cast(v: nat): bv8 {
    CastLow(v, 8)
  }

  /** The byte of the n low bits of v. */
  function CastLow(v: nat, n: nat): bv8
    requires n <= 8
  {
    if n == 0 then 0 else Or(Shl(CastLow(v / 2, n - 1), 1), LastBit(v))
  }

  function LastBit(v: nat): bv8 {
    if v % 2 == 1 then 1 else 0
  }

  lemma LastBitBits(v: nat)
    ensures forall k | 0 <= k < 8 :: BitAt(LastBit(v), k) == (k == 7 && v % 2 == 1)
  {}

  lemma ZeroByteBits()
    ensures forall k | 0 <= k < 8 :: !BitAt(0, k)
  {}

  lemma {:induction false} CastLowBits(v: nat, n: nat)
    requires n <= 8
    ensures forall k | 0 <= k < 8 :: BitAt(CastLow(v, n), k) == (k >= 8 - n && NatBits(v, n)[k + n - 8])
  {
    hide BitAt, Or, Shl, LastBit;
    if n == 0 {
      ZeroByteBits();
    } else {
      CastLowBits(v / 2, n - 1);
      ShlBits(CastLow(v / 2, n - 1), 1);
      OrBits(Shl(CastLow(v / 2, n - 1), 1), LastBit(v));
      LastBitBits(v);
    }
  }

  /** The low bits of the byte (byte)v are the low bits of v. */
  lemma CastBits(v: nat, n: nat)
    requires n <= 8
    ensures LowBits(Cast(v), n) == NatBits(v, n)
  {
    hide BitAt, CastLow, NatBits, ShiftRight;
    CastLowBits(v, 8);
    NatBitsSplit(v, 8 - n, n);
  }

  lemma CastValue(v: nat)
    ensures Cast(v) as nat == v % 0x100
  {
    hide Cast, LowBits, NatBits, Pow2;
    CastBits(v, 8);
    ByteBitsValue(Cast(v));
    ByteValue(Cast(v));
    Pow2Values();
    BitsNatBits(ByteBits(Cast(v)));
    NatBitsModulo(v, v % 0x100, 8);
    NatBitsValue(v % 0x100, 8);
    NatBitsValue(Cast(v) as nat, 8);
  }

  lemma LowBitsSplit(b: bv8, n: nat)
    requires n <= 8
    ensures LowBits(b, n) == ByteBits(b)[8 - n..]
  {
    hide BitAt;
  }

  lemma HighBitsZero(v: nat, n: nat)
    requires v < Pow2(n) && n <= 8
    ensures forall k | 0 <= k < 8 - n :: !BitAt(Cast(v), k)
  {
    hide Cast, BitAt, LowBits, NatBits;
    CastBits(v, 8);
    LeadingZeros(v, 8, n);
    var b := Cast(v);
    forall k | 0 <= k < 8 - n ensures !BitAt(b, k) { LowBitAt(b, 8, k); }
  }

  /** One more group of bits of v has been appended, most significant first. */
  lemma NextGroup(x: seq<bool>, x1: seq<bool>, x2: seq<bool>, pos: nat, v: nat, n: nat, g: nat)
    requires Extends(x, x1, pos, NatBits(ShiftRight(v, g), n)) && Extends(x1, x2, pos + n, NatBits(v, g))
    ensures Extends(x, x2, pos, NatBits(v, n + g))
  {
    hide Extends;
    NatBitsSplit(v, n, g);
    ExtendsThen(x, x1, x2, pos, NatBits(ShiftRight(v, g), n), NatBits(v, g));
  }

  lemma ShiftBound(v: nat, a: nat, b: nat)
    requires v < Pow2(a + b)
    ensures ShiftRight(v, a) < Pow2(b)
  {
    if a > 0 { ShiftBound(v / 2, a - 1, b); }
  }

  /** v & mask != 0, for a mask of one bit */
  predicate TestBit(v: nat, mask: nat)
    requires mask > 0
  {
    v / mask % 2 == 1
  }

  lemma HighestBit(v: nat, mask: nat)
    requires 0 < mask && v < 2 * mask
    ensures TestBit(v, mask) == (v >= mask)
  {
    if v < mask { DivModUnique(v, mask, 0, v); } else { DivModUnique(v, mask, 1, v - mask); }
  }

  /** The number of bits to encode: a mask walks down from the top of v's highest byte. */
  method CountBits(v: nat) returns (cc: nat)
    requires 0 < v < UINT32
    ensures cc == BitLength(v) <= 32
  {
    hide TestBit;
    Pow2Values();
    var curMask: nat;
    if v < 0x100 {
      cc, curMask := 8, 0x80;
    } else if v < 0x1_0000 {
      cc, curMask := 16, 0x8000;
    } else if v < 0x100_0000 {
      cc, curMask := 24, 0x80_0000;
    } else {
      cc, curMask := 32, 0x8000_0000;
    }
    Pow2Add(1, 23);
    HighestBit(v, curMask);
    while !TestBit(v, curMask)
      invariant 0 < cc <= 32 && curMask == Pow2(cc - 1) && v < Pow2(cc)
      invariant TestBit(v, curMask) == (v >= curMask)
      decreases cc
    {
      curMask := curMask / 2;
      cc := cc - 1;
      assert cc > 0;
      HighestBit(v, curMask);
    }
    BitLengthIs(v, cc);
  }

  /** Appends the cc low bits of v, a byte at a time. */
  method AppendWholeBytes(s: BitStream, v: nat, bits: nat)
    requires s.Valid() && bits % 8 == 0 && s.HasRoom(bits)
    modifies s, s.buf
    ensures s.Valid() && s.Pos() == old(s.Pos()) + bits
    ensures Extends(old(s.Bits()), s.Bits(), old(s.Pos()), NatBits(v, bits))
  {
    hide Extends, BitStream.Bits, BitStream.Pos, LowBits, Cast, NatBits, ShiftRight;
    ghost var x, p := s.Bits(), s.Pos();
    NothingExtends(x, p);
    NoBits(ShiftRight(v, bits)); NoShift(v);
    var cc: nat := bits;
    while cc > 0
      invariant cc % 8 == 0 && cc <= bits
      invariant s.Valid() && s.Pos() == p + bits - cc
      invariant Extends(x, s.Bits(), p, NatBits(ShiftRight(v, cc), bits - cc))
    {
      ghost var x1, n := s.Bits(), bits - cc;
      cc := cc - 8;
      s.AppendByte(Cast(ShiftRight(v, cc)), false);
      CastBits(ShiftRight(v, cc), 8); LowBitsSplit(Cast(ShiftRight(v, cc)), 8);
      ShiftTwice(v, cc, 8);
      NextGroup(x, x1, s.Bits(), p, ShiftRight(v, cc), n, 8);
    }
  }

  lemma NoShift(v: nat)
    ensures ShiftRight(v, 0) == v
  {}

  lemma NoBits(v: nat)
    ensures NatBits(v, 0) == []
  {}

  /** Appends a number of fewer than eight bits. */
  method AppendTopBits(s: BitStream, v: nat, pbits: nat)
    requires s.Valid() && s.Zeroed() && 1 <= pbits <= 7 && v < Pow2(pbits) && s.HasRoom(pbits)
    modifies s, s.buf
    ensures s.Valid() && s.Pos() == old(s.Pos()) + pbits
    ensures Extends(old(s.Bits()), s.Bits(), old(s.Pos()), NatBits(v, pbits))
  {
    hide Extends, ZeroFrom, BitStream.Bits, BitStream.Valid, BitStream.Pos, LowBits, BitAt, Cast, NatBits;
    HighBitsZero(v, pbits);
    CastBits(v, pbits);
    s.AppendPartialByte(Cast(v), pbits, false);
  }

  /** Minimal encoding of a 32-bit number: a partial byte first, then whole bytes. (The source's negate
      flag is FALSE at both call sites.) */
  method EncodeNonNegativeInteger32(s: BitStream, v: nat)
    requires s.Valid() && v < UINT32 && s.Zeroed() && s.HasRoom(BitLength(v))
    modifies s, s.buf
    ensures s.Valid() && s.Pos() == old(s.Pos()) + BitLength(v)
    ensures Extends(old(s.Bits()), s.Bits(), old(s.Pos()), NatBits(v, BitLength(v)))
  {
    hide Extends, ZeroFrom, BitStream.Bits, BitStream.Valid, BitStream.Pos, NatBits, ShiftRight, Pow2, BitLength, BitsOf, Zeros;
    ghost var x, p := s.Bits(), s.Pos();
    NothingExtends(x, p); NoBits(v); BitLengthZero();
    if v == 0 {
      return;
    }
    var cc := CountBits(v);
    var pbits := cc % 8;
    NoBits(ShiftRight(v, cc));
    if pbits != 0 {
      cc := cc - pbits;
      BitLengthBounds(v);
      ShiftBound(v, cc, pbits);
      AppendTopBits(s, ShiftRight(v, cc), pbits);
    }
    ghost var x1 := s.Bits();
    AppendWholeBytes(s, v, cc);
    NextGroup(x, x1, s.Bits(), p, v, pbits, cc);
  }

  /** A 64-bit number: high word, zeros, low word. */
  method EncodeNonNegativeInteger(s: BitStream, v: nat)
    requires s.Valid() && v < UINT64 && s.Zeroed() && s.HasRoom(BitLength(v))
    modifies s, s.buf
    ensures s.Valid() && s.Pos() == old(s.Pos()) + BitLength(v)
    ensures Extends(old(s.Bits()), s.Bits(), old(s.Pos()), NatBits(v, BitLength(v)))
  {
    hide Extends, ZeroFrom, BitStream.Bits, BitStream.Valid, BitStream.Pos, NatBits, BitLength, Pow2;
    if v < UINT32 {
      EncodeNonNegativeInteger32(s, v);
    } else {
      ghost var x, p := s.Bits(), s.Pos();
      var hi: nat := v / UINT32;
      var lo: nat := v % UINT32;
      Pow2Values();
      ShiftRightValue(v, 32);
      BitLengthShift(v, 32);
      BitLengthAtMost(lo, 32);
      EncodeNonNegativeInteger32(s, hi);
      ghost var x1 := s.Bits();
      ZeroAfter(x, x1, p, NatBits(hi, BitLength(hi)));
      var nBits := GetNumberOfBits(lo);
      s.AppendNBitZero(32 - nBits);
      ghost var x2 := s.Bits();
      ZeroAfter(x1, x2, p + BitLength(hi), Zeros(32 - nBits));
      EncodeNonNegativeInteger32(s, lo);
      ExtendsThen(x1, x2, s.Bits(), p + BitLength(hi), Zeros(32 - nBits), NatBits(lo, nBits));
      BitLengthBounds(lo);
      LeadingZeros(lo, 32, nBits);
      NatBitsModulo(v, lo, 32);
      NextGroup(x, x1, s.Bits(), p, v, BitLength(hi), 32);
    }
  }

  method GetNumberOfBits32(v: nat) returns (ret: nat)
    requires v < UINT32
    ensures ret == BitLength(v)
  {
    Pow2Values();
    var w: nat := v;
    if v < 0x100 {
      ret := 0;
    } else if v < 0x1_0000 {
      ret := 8;
      w := v / 0x100;
    } else if v < 0x100_0000 {
      ret := 16;
      w := v / 0x1_0000;
    } else {
      ret := 24;
      w := v / 0x100_0000;
    }
    ShiftRightValue(v, ret);
    if ret > 0 { BitLengthShift(v, ret); }
    while w > 0
      invariant ret + BitLength(w) == BitLength(v)
    {
      w := w / 2;
      ret := ret + 1;
    }
  }

  method GetNumberOfBits(v: nat) returns (ret: nat)
    requires v < UINT64
    ensures ret == BitLength(v)
  {
    if v < UINT32 {
      ret := GetNumberOfBits32(v);
    } else {
      var hi: nat := v / UINT32;
      Pow2Values();
      ShiftRightValue(v, 32);
      BitLengthShift(v, 32);
      var n := GetNumberOfBits32(hi);
      ret := 32 + n;
    }
  }

  /** What the n bits of x from pos on denote. */
  ghost function NatAt(x: seq<bool>, pos: nat, n: nat): nat
    requires pos + n <= |x|
  {
    BitsNat(x[pos..pos + n])
  }

  lemma NatAtSplit(x: seq<bool>, pos: nat, a: nat, b: nat)
    requires pos + a + b <= |x|
    ensures NatAt(x, pos, a + b) == NatAt(x, pos, a) * Pow2(b) + NatAt(x, pos + a, b)
  {
    assert x[pos..pos + a + b] == x[pos..pos + a] + x[pos + a..pos + a + b];
    BitsNatConcat(x[pos..pos + a], x[pos + a..pos + a + b]);
  }

  lemma NatAtNothing(x: seq<bool>, pos: nat)
    requires pos <= |x|
    ensures NatAt(x, pos, 0) == 0
  {}

  lemma {:induction false} BitsNatConcat(a: seq<bool>, b: seq<bool>)
    ensures BitsNat(a + b) == BitsNat(a) * Pow2(|b|) + BitsNat(b)
  {
    if b == [] {
      assert a + b == a;
    } else {
      var b' := b[..|b| - 1];
      assert (a + b)[..|a + b| - 1] == a + b';
      BitsNatConcat(a, b');
      DoubleProduct(BitsNat(a), Pow2(|b'|));
    }
  }

  lemma DoubleProduct(a: nat, p: nat)
    ensures a * (2 * p) == 2 * (a * p)
  {}

  lemma NatAtBound(x: seq<bool>, pos: nat, n: nat)
    requires pos + n <= |x|
    ensures NatAt(x, pos, n) < Pow2(n)
  {
    BitsNatBits(x[pos..pos + n]);
  }

  lemma ByteNat(v: bv8, n: nat)
    requires n <= 8 && forall k | 0 <= k < 8 - n :: !BitAt(v, k)
    ensures v as nat == BitsNat(LowBits(v, n))
  {
    hide BitAt, LowBits, NatBits, BitsNat, Pow2;
    LowBitsSplit(v, n);
    ByteBitsNat(v);
    var top := ByteBits(v)[..8 - n];
    forall k | 0 <= k < 8 - n ensures !top[k] { LowBitAt(v, 8, k); }
    BitsNatZeros(8 - n);
    BitsNatConcat(top, LowBits(v, n));
    assert top == Zeros(8 - n) && ByteBits(v) == top + LowBits(v, n);
  }

  lemma ByteBitsNat(v: bv8)
    ensures BitsNat(ByteBits(v)) == v as nat
  {
    hide LowBits, NatBits, BitsNat, Pow2;
    ByteBitsValue(v);
    Pow2Values();
    NatBitsValue(v as nat, 8);
  }

  lemma BitsNatZeros(n: nat)
    ensures BitsNat(Zeros(n)) == 0
  {
    ZeroBits(n);
    NatBitsValue(0, n);
  }

  /** Reads whole bytes first, then a partial byte: the value is cut at other places than the encoder
      cuts it. */
  method DecodeNonNegativeInteger32(s: BitStream, nBits: nat) returns (ok: bool, v: nat)
    requires s.Valid() && nBits <= 32 && s.Pos() + nBits <= 8 * s.buf.Length
    modifies s
    ensures ok == old(s.HasRoom(nBits))
    ensures ok ==> s.Valid() && s.Pos() == old(s.Pos()) + nBits && s.Bits() == old(s.Bits())
    ensures ok ==> v == NatAt(s.Bits(), old(s.Pos()), nBits)
  {
    hide BitStream.Bits, BitStream.Pos, LowBits, BitAt, BitsNat, Pow2;
    Pow2Values();
    ghost var x, p := s.Bits(), s.Pos();
    v := 0;
    var left: nat := nBits;
    NatAtNothing(x, p);
    while left >= 8
      invariant 0 <= left <= nBits
      invariant s.Valid() && s.Pos() == p + nBits - left && s.Bits() == x
      invariant s.HasRoom(left) == old(s.HasRoom(nBits))
      invariant v == NatAt(x, p, nBits - left)
    {
      var got, b := s.ReadByte();
      if !got {
        return false, v;
      }
      NatAtSplit(x, p, nBits - left, 8);
      ByteNat(b, 8);
      v := v * 0x100 + b as nat;
      left := left - 8;
    }
    if left > 0 {
      var got, b := s.ReadPartialByte(left);
      if !got {
        return false, v;
      }
      NatAtSplit(x, p, nBits - left, left);
      ByteNat(b, left);
      v := v * Pow2(left) + b as nat;
    }
    ok := true;
  }

  /** The high 32 bits first, the rest shifted in after them. */
  method DecodeNonNegativeInteger(s: BitStream, nBits: nat) returns (ok: bool, v: nat)
    requires s.Valid() && nBits <= 64 && s.Pos() + nBits <= 8 * s.buf.Length
    modifies s
    ensures ok == old(s.HasRoom(nBits))
    ensures ok ==> s.Valid() && s.Pos() == old(s.Pos()) + nBits && s.Bits() == old(s.Bits())
    ensures ok ==> v == NatAt(s.Bits(), old(s.Pos()), nBits)
  {
    hide BitStream.Bits, BitStream.Pos, BitsNat, Pow2;
    if nBits <= 32 {
      ok, v := DecodeNonNegativeInteger32(s, nBits);
      return;
    }
    ghost var x, p := s.Bits(), s.Pos();
    var hi, lo;
    ok, hi := DecodeNonNegativeInteger32(s, 32);
    v := 0;
    if ok {
      ok, lo := DecodeNonNegativeInteger32(s, nBits - 32);
      if ok {
        v := hi * Pow2(nBits - 32) + lo;
        NatAtSplit(x, p, 32, nBits - 32);
      }
    }
  }

  /** v - min in as many bits as max - min takes. */
  method EncodeConstraintWholeNumber(s: BitStream, v: int, min: int, max: int)
    requires min <= v <= max && max - min < UINT64
    requires s.Valid() && s.Zeroed() && s.HasRoom(BitLength(max - min))
    modifies s, s.buf
    ensures s.Valid() && s.Zeroed() && s.Pos() == old(s.Pos()) + BitLength(max - min)
    ensures s.Written() == old(s.Written()) + NatBits(v - min, BitLength(max - min))
  {
    hide Extends, ZeroFrom, BitStream.Bits, BitStream.Pos, NatBits, BitLength, Pow2;
    var range: nat := max - min;
    if range == 0 {
      NoBits(0);
      BitLengthZero();
      return;
    }
    var nRangeBits := GetNumberOfBits(range);
    BitLengthBounds(range);
    BitLengthAtMost(v - min, nRangeBits);
    AppendPadded(s, v - min, nRangeBits);
  }

  lemma BitLengthZero()
    ensures BitLength(0) == 0
  {}

  /** Leading zeros, then the minimal encoding: n bits in all. */
  method AppendPadded(s: BitStream, v: nat, n: nat)
    requires v < UINT64 && BitLength(v) <= n
    requires s.Valid() && s.Zeroed() && s.HasRoom(n)
    modifies s, s.buf
    ensures s.Valid() && s.Zeroed() && s.Pos() == old(s.Pos()) + n
    ensures s.Written() == old(s.Written()) + NatBits(v, n)
  {
    hide Extends, ZeroFrom, BitStream.Bits, BitStream.Pos, NatBits, BitLength, Pow2;
    var nBits := GetNumberOfBits(v);
    ghost var x, p := s.Bits(), s.Pos();
    s.AppendNBitZero(n - nBits);
    ghost var x1 := s.Bits();
    ZeroAfter(x, x1, p, Zeros(n - nBits));
    EncodeNonNegativeInteger(s, v);
    ExtendsThen(x, x1, s.Bits(), p, Zeros(n - nBits), NatBits(v, nBits));
    BitLengthBounds(v);
    LeadingZeros(v, n, nBits);
    ExtendsWritten(x, s.Bits(), p, NatBits(v, n));
  }

  method DecodeConstraintWholeNumber(s: BitStream, min: int, max: int) returns (ok: bool, v: int)
    requires min <= max && max - min < UINT64
    requires s.Valid() && s.Pos() + BitLength(max - min) <= 8 * s.buf.Length
    modifies s
    ensures ok == old(s.HasRoom(BitLength(max - min)))
    ensures ok ==> s.Valid() && s.Pos() == old(s.Pos()) + BitLength(max - min) && s.Bits() == old(s.Bits())
    ensures ok ==> v == min + NatAt(s.Bits(), old(s.Pos()), BitLength(max - min))
  {
    hide BitStream.Bits, BitStream.Pos, BitsNat, Pow2, BitLength;
    v := 0;
    var range: nat := max - min;
    if range == 0 {
      BitLengthZero();
      NatAtNothing(s.Bits(), s.Pos());
      return true, min;
    }
    var nRangeBits := GetNumberOfBits(range);
    Pow2Values();
    BitLengthAtMost(range, 64);
    var uv;
    ok, uv := DecodeNonNegativeInteger(s, nRangeBits);
    if ok {
      v := uv + min;
    }
  }

  // ---------- dataview/asn1crt_encoding_acn.c ----------

  method EncodeConstSize(s: BitStream, v: nat, n: nat)
    requires v < UINT64 && (n == 0 || v < Pow2(n))
    requires s.Valid() && s.Zeroed() && s.HasRoom(n)
    modifies s, s.buf
    ensures s.Valid() && s.Zeroed() && s.Pos() == old(s.Pos()) + n
    ensures s.Written() == old(s.Written()) + NatBits(v, n)
  {
    if n == 0 {
      NoBits(v);
      return;
    }
    BitLengthAtMost(v, n);
    AppendPadded(s, v, n);
  }

  method EncodeConstSize8(s: BitStream, v: nat)
    requires s.Valid() && s.Zeroed() && s.HasRoom(8)
    modifies s, s.buf
    ensures s.Valid() && s.Zeroed() && s.Pos() == old(s.Pos()) + 8
    ensures s.Written() == old(s.Written()) + NatBits(v, 8)
  {
    hide Extends, ZeroFrom, BitStream.Bits, NatBits, Cast, LowBits;
    ghost var x, p := s.Bits(), s.Pos();
    var _ := s.AppendByte0(Cast(v));
    CastBits(v, 8);
    ExtendsWritten(x, s.Bits(), p, NatBits(v, 8));
  }

  /** The size low bytes of v, most significant first. */
  method EncodeBigEndian(s: BitStream, v: nat, size: nat)
    requires s.Valid() && s.Zeroed() && s.HasRoom(8 * size)
    modifies s, s.buf
    ensures s.Valid() && s.Zeroed() && s.Pos() == old(s.Pos()) + 8 * size
    ensures s.Written() == old(s.Written()) + NatBits(v, 8 * size)
  {
    hide Extends, ZeroFrom, BitStream.Bits, BitStream.Pos, NatBits;
    NoBits(ShiftRight(v, 8 * size));
    for i := 0 to size
      invariant s.Valid() && s.Zeroed() && s.Pos() == old(s.Pos()) + 8 * i
      invariant s.Written() == old(s.Written()) + NatBits(ShiftRight(v, 8 * (size - i)), 8 * i)
    {
      var byteToEncode := ShiftRight(v, 8 * (size - i - 1));
      EncodeConstSize8(s, byteToEncode);
      ShiftTwice(v, 8 * (size - i - 1), 8);
      NatBitsSplit(byteToEncode, 8 * i, 8);
    }
  }

  method DecodeConstSize8(s: BitStream) returns (ok: bool, v: nat)
    requires s.Valid()
    modifies s
    ensures ok == old(s.HasRoom(8))
    ensures ok ==> s.Valid() && s.Pos() == old(s.Pos()) + 8 && s.Bits() == old(s.Bits())
    ensures ok ==> v == NatAt(s.Bits(), old(s.Pos()), 8)
  {
    hide BitStream.Bits, BitStream.Pos, BitsNat, BitAt, LowBits;
    var b;
    ok, b := s.ReadByte();
    v := 0;
    if ok {
      v := b as nat;
      ByteNat(b, 8);
    }
  }

  method DecodeBigEndian(s: BitStream, size: nat) returns (ok: bool, v: nat)
    requires s.Valid() && size <= 8
    modifies s
    ensures ok == old(s.HasRoom(8 * size))
    ensures ok ==> s.Valid() && s.Pos() == old(s.Pos()) + 8 * size && s.Bits() == old(s.Bits())
    ensures ok ==> v == NatAt(s.Bits(), old(s.Pos()), 8 * size)
  {
    hide BitStream.Bits, BitStream.Pos, BitsNat, BitAt, LowBits, Pow2;
    Pow2Values();
    ghost var x, p := s.Bits(), s.Pos();
    NatAtNothing(x, p);
    v := 0;
    for i := 0 to size
      invariant s.Valid() && s.Pos() == p + 8 * i && s.Bits() == x
      invariant v == NatAt(x, p, 8 * i)
    {
      var got, b := s.ReadByte();
      if !got {
        return false, v;
      }
      NatAtSplit(x, p, 8 * i, 8);
      ByteNat(b, 8);
      v := v * 0x100 + b as nat;
    }
    ok := true;
  }

  /** Reads nbits bits and compares them with a pattern. */
  method ReadBitPattern(s: BitStream, pattern: seq<bv8>, nbits: nat) returns (ok: bool, matches: bool)
    requires s.Valid() && nbits <= 8 * |pattern| && s.Pos() + nbits <= 8 * s.buf.Length
    modifies s
    ensures ok == old(s.HasRoom(nbits))
    ensures ok ==> s.Valid() && s.Pos() == old(s.Pos()) + nbits && s.Bits() == old(s.Bits())
    ensures ok ==> matches == (s.Bits()[old(s.Pos())..s.Pos()] == BitsOf(pattern)[..nbits])
  {
    hide BitStream.Bits, BitStream.Pos, BitsOf, BitAt, LowBits, Shr;
    ghost var x, p := s.Bits(), s.Pos();
    var nBytesToRead := nbits / 8;
    var nRemainingBitsToRead := nbits % 8;
    matches := true;
    for i := 0 to nBytesToRead
      invariant s.Valid() && s.Pos() == p + 8 * i && s.Bits() == x
      invariant matches == (x[p..p + 8 * i] == BitsOf(pattern)[..8 * i])
    {
      var got, curByte := s.ReadByte();
      if !got {
        return false, matches;
      }
      PatternByte(x, p, pattern, i, curByte);
      matches := matches && curByte == pattern[i];
    }
    if nRemainingBitsToRead > 0 {
      var got, curByte := s.ReadPartialByte(nRemainingBitsToRead);
      if !got {
        return false, matches;
      }
      PatternRest(x, p, pattern, nbits, curByte);
      matches := matches && curByte == Shr(pattern[nBytesToRead], 8 - nRemainingBitsToRead);
    }
    ok := true;
  }

  lemma PatternByte(x: seq<bool>, p: nat, pattern: seq<bv8>, i: nat, b: bv8)
    requires i < |pattern| && p + 8 * i + 8 <= |x|
    requires ByteBits(b) == x[p + 8 * i..p + 8 * i + 8]
    ensures (x[p..p + 8 * (i + 1)] == BitsOf(pattern)[..8 * (i + 1)])
        <==> (x[p..p + 8 * i] == BitsOf(pattern)[..8 * i] && b == pattern[i])
  {
    hide BitAt, BitsOf, LowBits;
    var y := BitsOf(pattern);
    BitsOfSlice(pattern, i, i + 1);
    BitsOfByte(pattern[i]); BitsOfByte(b);
    assert pattern[i..i + 1] == [pattern[i]];
    assert x[p..p + 8 * (i + 1)] == x[p..p + 8 * i] + ByteBits(b);
    assert y[..8 * (i + 1)] == y[..8 * i] + ByteBits(pattern[i]);
    if ByteBits(b) == ByteBits(pattern[i]) { BitsOfIsInjective([b], [pattern[i]]); }
  }

  lemma PatternRest(x: seq<bool>, p: nat, pattern: seq<bv8>, nbits: nat, b: bv8)
    requires nbits % 8 > 0 && nbits <= 8 * |pattern| && p + nbits <= |x|
    requires LowBits(b, nbits % 8) == x[p + nbits - nbits % 8..p + nbits]
    requires forall k | 0 <= k < 8 - nbits % 8 :: !BitAt(b, k)
    ensures (x[p..p + nbits] == BitsOf(pattern)[..nbits])
        <==> (x[p..p + nbits - nbits % 8] == BitsOf(pattern)[..nbits - nbits % 8] && b == Shr(pattern[nbits / 8], 8 - nbits % 8))
  {
    hide BitAt, BitsOf, LowBits, Shr;
    var n, r, y := nbits / 8, nbits % 8, BitsOf(pattern);
    var last := Shr(pattern[n], 8 - r);
    FirstBits(pattern, nbits); FirstBits(pattern, 8 * n);
    ShrBits(pattern[n], 8 - r);
    assert x[p..p + nbits] == x[p..p + 8 * n] + LowBits(b, r);
    assert y[..nbits] == y[..8 * n] + LowBits(last, r);
    if LowBits(b, r) == LowBits(last, r) { SameLowBits(b, last, r); }
  }

  lemma SameLowBits(a: bv8, b: bv8, n: nat)
    requires n <= 8 && LowBits(a, n) == LowBits(b, n)
    requires forall k | 0 <= k < 8 - n :: !BitAt(a, k)
    requires forall k | 0 <= k < 8 - n :: !BitAt(b, k)
    ensures a == b
  {
    hide BitAt, LowBits;
    forall k | 0 <= k < 8 ensures BitAt(a, k) == BitAt(b, k) {
      if k >= 8 - n { LowBitAt(a, n, k + n - 8); LowBitAt(b, n, k + n - 8); }
    }
    SameBits(a, b);
  }

  /** Integer round trip: n bits written for v, wherever they start, are read back as v. */
  lemma WrittenIntegerReadsBack(x: seq<bool>, x': seq<bool>, pos: nat, v: nat, n: nat)
    requires Extends(x, x', pos, NatBits(v, n)) && v < Pow2(n)
    ensures NatAt(x', pos, n) == v
  {
    assert x'[pos..pos + n] == NatBits(v, n);
    NatBitsValue(v, n);
  }
}

/** Bytes as the bit stream sees them. Bit 0 is the most significant bit of a byte, as in the
    `currentBit` cursor of the C `BitStream`. The named operators are Dafny's own bit-vector
    operators; the proofs about streams use them only through the lemmas below. */
module Bits {
  function And(a: bv8, b: bv8): bv8 { a & b }

  function Or(a: bv8, b: bv8): bv8 { a | b }

  function Not(a: bv8): bv8 { !a }

  function Shr(v: bv8, n: nat): bv8
    requires n <= 8
  {
    v >> n
  }

  function Shl(v: bv8, n: nat): bv8
    requires n <= 8
  {
    v << n
  }

  /** The table `masks`: one bit, at position k from the left. */
  function Mask(k: nat): bv8
    requires k < 8
  {
    if k == 0 then 0x80 else if k == 1 then 0x40 else if k == 2 then 0x20 else if k == 3 then 0x10
    else if k == 4 then 0x08 else if k == 5 then 0x04 else if k == 6 then 0x02 else 0x01
  }

  /** The table `masksb`: the n rightmost bits. */
  function MaskB(n: nat): bv8
    requires n <= 8
  {
    if n == 0 then 0x00 else if n == 1 then 0x01 else if n == 2 then 0x03 else if n == 3 then 0x07
    else if n == 4 then 0x0F else if n == 5 then 0x1F else if n == 6 then 0x3F else if n == 7 then 0x7F else 0xFF
  }

  predicate BitAt(b: bv8, k: nat)
    requires k < 8
  {
    b & Mask(k) != 0
  }

  /** The n low bits of a byte. */
  ghost function LowBits(v: bv8, n: nat): (r: seq<bool>)
    requires n <= 8
    ensures |r| == n
  {
    seq(n, k requires 0 <= k < n => BitAt(v, k + 8 - n))
  }

  lemma AndBits(a: bv8, b: bv8)
    ensures forall k | 0 <= k < 8 :: BitAt(And(a, b), k) == (BitAt(a, k) && BitAt(b, k))
  {}

  lemma OrBits(a: bv8, b: bv8)
    ensures forall k | 0 <= k < 8 :: BitAt(Or(a, b), k) == (BitAt(a, k) || BitAt(b, k))
  {}

  lemma NotBits(a: bv8)
    ensures forall k | 0 <= k < 8 :: BitAt(Not(a), k) == !BitAt(a, k)
  {}

  lemma MaskBits(n: nat)
    requires n < 8
    ensures forall k | 0 <= k < 8 :: BitAt(Mask(n), k) == (k == n)
  {}

  lemma MaskBBits(n: nat)
    requires n <= 8
    ensures forall k | 0 <= k < 8 :: BitAt(MaskB(n), k) == (k >= 8 - n)
  {}

  lemma ShrBits(v: bv8, n: nat)
    requires n <= 8
    ensures forall k | 0 <= k < 8 :: BitAt(Shr(v, n), k) == (k >= n && BitAt(v, k - n))
  {}

  lemma ShlBits(v: bv8, n: nat)
    requires n <= 8
    ensures forall k | 0 <= k < 8 :: BitAt(Shl(v, n), k) == (k + n < 8 && BitAt(v, k + n))
  {}

  /** Equal bits make equal bytes. */
  lemma SameBits(a: bv8, b: bv8)
    requires forall k | 0 <= k < 8 :: BitAt(a, k) == BitAt(b, k)
    ensures a == b
  {
    assert BitAt(a, 0) == BitAt(b, 0) && BitAt(a, 1) == BitAt(b, 1) && BitAt(a, 2) == BitAt(b, 2) && BitAt(a, 3) == BitAt(b, 3);
    assert BitAt(a, 4) == BitAt(b, 4) && BitAt(a, 5) == BitAt(b, 5) && BitAt(a, 6) == BitAt(b, 6) && BitAt(a, 7) == BitAt(b, 7);
  }

  /** A byte's value is the sum of its bits' weights. */
  lemma ByteValue(b: bv8)
    ensures b as nat == (if BitAt(b, 0) then 128 else 0) + (if BitAt(b, 1) then 64 else 0)
                      + (if BitAt(b, 2) then 32 else 0) + (if BitAt(b, 3) then 16 else 0)
                      + (if BitAt(b, 4) then 8 else 0) + (if BitAt(b, 5) then 4 else 0)
                      + (if BitAt(b, 6) then 2 else 0) + (if BitAt(b, 7) then 1 else 0)
  {}

  lemma LowBitsAt(v: bv8, n: nat)
    requires n <= 8
    ensures forall k | 0 <= k < n :: LowBits(v, n)[k] == BitAt(v, k + 8 - n)
  {
    hide BitAt;
  }

  lemma LowBitAt(v: bv8, n: nat, k: nat)
    requires k < n <= 8
    ensures LowBits(v, n)[k] == BitAt(v, k + 8 - n)
  {
    hide BitAt;
  }

  // The byte-level effects of the masked writes; c is the byte written over b.

  /** The bits of v move into b from position cb on. */
  lemma HeadWrite(b: bv8, v: bv8, cb: nat, c: bv8)
    requires cb < 8 && c == Or(And(b, Not(MaskB(8 - cb))), Shr(v, cb))
    ensures forall k | 0 <= k < 8 :: BitAt(c, k) == if k < cb then BitAt(b, k) else LowBits(v, 8)[k - cb]
  {
    hide *;
    var a := And(b, Not(MaskB(8 - cb)));
    assert forall k | 0 <= k < 8 :: BitAt(a, k) == (k < cb && BitAt(b, k)) by {
      AndBits(b, Not(MaskB(8 - cb))); NotBits(MaskB(8 - cb)); MaskBBits(8 - cb);
    }
    OrHeadWrite(a, v, cb, c);
  }

  /** The last cb bits of v move into the first cb positions of b. */
  lemma TailWrite(b: bv8, v: bv8, cb: nat, c: bv8)
    requires cb < 8 && c == Or(And(b, MaskB(8 - cb)), Shl(v, 8 - cb))
    ensures forall k | 0 <= k < 8 :: BitAt(c, k) == if k < cb then LowBits(v, 8)[k + 8 - cb] else BitAt(b, k)
  {
    hide *;
    var m, s := MaskB(8 - cb), Shl(v, 8 - cb);
    OrBits(And(b, m), s); AndBits(b, m); MaskBBits(8 - cb); ShlBits(v, 8 - cb); LowBitsAt(v, 8);
  }

  /** Writing by OR alone, as the inner loop of AppendByteArray does, needs the target bits to be zero. */
  lemma OrHeadWrite(b: bv8, v: bv8, cb: nat, c: bv8)
    requires cb < 8 && c == Or(b, Shr(v, cb))
    requires forall k | cb <= k < 8 :: !BitAt(b, k)
    ensures forall k | 0 <= k < 8 :: BitAt(c, k) == if k < cb then BitAt(b, k) else LowBits(v, 8)[k - cb]
  {
    hide *;
    forall k | 0 <= k < 8 ensures BitAt(c, k) == if k < cb then BitAt(b, k) else LowBits(v, 8)[k - cb] {
      var s := Shr(v, cb);
      assert BitAt(c, k) == (BitAt(b, k) || BitAt(s, k)) by { OrBits(b, s); }
      assert BitAt(s, k) == (k >= cb && BitAt(v, k - cb)) by { ShrBits(v, cb); }
      if k >= cb { LowBitAt(v, 8, k - cb); }
    }
  }

  lemma OrTailWrite(b: bv8, v: bv8, cb: nat, c: bv8)
    requires cb < 8 && c == Or(b, Shl(v, 8 - cb))
    requires forall k | 0 <= k < 8 :: !BitAt(b, k)
    ensures forall k | 0 <= k < 8 :: BitAt(c, k) == if k < cb then LowBits(v, 8)[k + 8 - cb] else BitAt(b, k)
  {
    hide *;
    OrBits(b, Shl(v, 8 - cb)); ShlBits(v, 8 - cb); LowBitsAt(v, 8);
  }

  /** AppendPartialByte inside one byte. */
  lemma {:induction false} PartialWrite(b: bv8, v: bv8, cb: nat, n: nat, c: bv8)
    requires cb + n <= 8
    requires forall k | 0 <= k < 8 - n :: !BitAt(v, k)
    requires c == Or(And(b, Or(Not(MaskB(8 - cb)), MaskB(8 - cb - n))), Shl(v, 8 - cb - n))
    ensures forall k | 0 <= k < 8 :: BitAt(c, k) == if cb <= k < cb + n then LowBits(v, n)[k - cb] else BitAt(b, k)
  {
    hide *;
    var m1, m2, s := Not(MaskB(8 - cb)), MaskB(8 - cb - n), Shl(v, 8 - cb - n);
    OrBits(And(b, Or(m1, m2)), s); AndBits(b, Or(m1, m2)); OrBits(m1, m2);
    NotBits(MaskB(8 - cb)); MaskBBits(8 - cb); MaskBBits(8 - cb - n); ShlBits(v, 8 - cb - n); LowBitsAt(v, n);
  }

  /** AppendPartialByte across a byte boundary, first byte: all but the last t of the n bits. */
  lemma PartialHeadWrite(b: bv8, v: bv8, cb: nat, n: nat, c: bv8)
    requires cb < 8 && n <= 8 && 8 < cb + n
    requires forall k | 0 <= k < 8 - n :: !BitAt(v, k)
    requires c == Or(And(b, Not(MaskB(8 - cb))), Shr(v, cb + n - 8))
    ensures forall k | 0 <= k < 8 :: BitAt(c, k) == if k < cb then BitAt(b, k) else LowBits(v, n)[k - cb]
  {
    hide *;
    var m, s := MaskB(8 - cb), Shr(v, cb + n - 8);
    OrBits(And(b, Not(m)), s); AndBits(b, Not(m)); NotBits(m); MaskBBits(8 - cb); ShrBits(v, cb + n - 8); LowBitsAt(v, n);
  }

  /** AppendPartialByte across a byte boundary, second byte. The mask keeps the old bits in the
      positions to be written, so they must be zero. */
  lemma PartialTailWrite(b: bv8, v: bv8, t: nat, n: nat, c: bv8)
    requires 0 < t < n < 8
    requires forall k | 0 <= k < 8 :: !BitAt(b, k)
    requires c == Or(And(b, Not(MaskB(8 - t))), Shl(v, 8 - t))
    ensures forall k | 0 <= k < 8 :: BitAt(c, k) == if k < t then LowBits(v, n)[k + n - t] else BitAt(b, k)
  {
    hide *;
    var m, s := MaskB(8 - t), Shl(v, 8 - t);
    OrBits(And(b, Not(m)), s); AndBits(b, Not(m)); ShlBits(v, 8 - t); LowBitsAt(v, n);
  }

  /** AppendBit. */
  lemma BitWrite(b: bv8, cb: nat, v: bool, c: bv8)
    requires cb < 8 && c == if v then Or(b, Mask(cb)) else And(b, Not(Mask(cb)))
    ensures forall k | 0 <= k < 8 :: BitAt(c, k) == if k == cb then v else BitAt(b, k)
  {
    hide *;
    OrBits(b, Mask(cb)); AndBits(b, Not(Mask(cb))); NotBits(Mask(cb)); MaskBits(cb);
  }

  /** ReadByte at bit position cb, from the bytes b0 and b1. */
  lemma ByteRead(b0: bv8, b1: bv8, cb: nat, c: bv8)
    requires cb < 8 && c == Or(Shl(b0, cb), Shr(b1, 8 - cb))
    ensures forall k | 0 <= k < 8 :: BitAt(c, k) == if k + cb < 8 then BitAt(b0, k + cb) else BitAt(b1, k + cb - 8)
  {
    hide *;
    OrBits(Shl(b0, cb), Shr(b1, 8 - cb)); ShlBits(b0, cb); ShrBits(b1, 8 - cb);
  }

  /** ReadPartialByte inside one byte. */
  lemma PartialRead(b: bv8, cb: nat, n: nat, c: bv8)
    requires cb + n <= 8 && c == And(Shr(b, 8 - cb - n), MaskB(n))
    ensures forall k | 0 <= k < 8 :: BitAt(c, k) == (k >= 8 - n && BitAt(b, k + cb + n - 8))
  {
    hide *;
    AndBits(Shr(b, 8 - cb - n), MaskB(n)); ShrBits(b, 8 - cb - n); MaskBBits(n);
  }

  /** ReadPartialByte across a byte boundary. */
  lemma PartialSplitRead(b0: bv8, b1: bv8, cb: nat, n: nat, c: bv8)
    requires cb < 8 && n <= 8 && 8 < cb + n
    requires c == And(Or(Shl(b0, cb + n - 8), Shr(b1, 16 - cb - n)), MaskB(n))
    ensures forall k | 0 <= k < 8 ::
      BitAt(c, k) == (k >= 8 - n && if k + cb + n < 16 then BitAt(b0, k + cb + n - 8) else BitAt(b1, k + cb + n - 16))
  {
    hide *;
    var l, r := Shl(b0, cb + n - 8), Shr(b1, 16 - cb - n);
    AndBits(Or(l, r), MaskB(n)); OrBits(l, r); ShlBits(b0, cb + n - 8); ShrBits(b1, 16 - cb - n); MaskBBits(n);
  }

  lemma NotNot(a: bv8)
    ensures Not(Not(a)) == a
  {}

  lemma ShlEight(v: bv8)
    ensures Shl(v, 8) == 0 && Shr(v, 8) == 0 && Shr(v, 0) == v && Shl(v, 0) == v
  {}

  lemma FullMask(b: bv8)
    ensures And(b, MaskB(8)) == b && Or(b, 0) == b && And(b, Not(MaskB(8))) == 0 && Or(0, b) == b
  {}
}

/** PDUs on the wire: what the sender transmits for a PDU and what the receiver makes of the bytes in
    its buffer. */
module Wire {
  import opened Bits
  import opened BitSequences
  import opened Integers
  import opened Pdus
  import opened Framing

  ghost function EncodedBytes(p: Pdu): (r: seq<bv8>)
    requires |p.header.source| > 0 && |p.header.seqNumber| > 0
    ensures |r| == |PduBits(p)| / 8
  {
    BytesAt(PduBits(p), 0, |PduBits(p)| / 8)
  }

  lemma EncodedBytesBits(p: Pdu)
    requires |p.header.source| > 0 && |p.header.seqNumber| > 0
    ensures BitsOf(EncodedBytes(p)) == PduBits(p)
  {
    hide PduBits, BytesAt, BitsOf;
    PduBitsWhole(p);
    BytesAtBits(PduBits(p), 0, |PduBits(p)| / 8);
    assert PduBits(p)[0..|PduBits(p)|] == PduBits(p);
  }

  lemma PduBitsWhole(p: Pdu)
    requires |p.header.source| > 0 && |p.header.seqNumber| > 0
    ensures |PduBits(p)| % 8 == 0
    ensures |PduBits(p)| == 8 * (4 + |p.header.source| + |p.header.seqNumber| + |p.header.destination| + PayloadLength(p.payload))
  {
    hide HeaderBits, PayloadBits;
  }

  /** The bytes handed to the transport for p. */
  ghost function Frame(p: Pdu): seq<bv8>
    requires Encodable(p)
  {
    FrameSize(p);
    if p.payload.FileData? then Strip(EncodedBytes(p), |p.payload.data|) else EncodedBytes(p)
  }

  lemma FrameSize(p: Pdu)
    requires Encodable(p)
    ensures |EncodedBytes(p)| == 4 + 2 * |p.header.source| + |p.header.seqNumber| + PayloadLength(p.payload)
    ensures p.payload.FileData? ==> PayloadLength(p.payload) == 6 + |p.payload.data|
  {
    PduBitsWhole(p);
  }

  /** The PDU the receiver sees in the first count bytes of its buffer m. The source stores the last
      received byte again as the last byte of the file data. */
  ghost function Unframe(m: seq<bv8>, count: nat): Option<Pdu>
    requires |m| >= 34 && count + DETERMINANT_SIZE <= |m|
  {
    var m' := Insert(m, count);
    var n := InsertedCount(m, count);
    match DecodePdu(BitsOf(m'[..n]), 0)
    case Failed => None
    case Got(p, _) => Some(WithLastByte(p, m', n))
  }

  function WithLastByte(p: Pdu, m: seq<bv8>, n: nat): Pdu
    requires n <= |m|
  {
    if p.payload.FileData? && |p.payload.data| > 0 && n > 0 then
      p.(payload := p.payload.(data := p.payload.data[|p.payload.data| - 1 := m[n - 1]]))
    else p
  }

  // ---------- the bytes of an encoded PDU ----------

  lemma ByteOf(s: seq<bv8>, j: nat)
    requires j < |s|
    ensures Holds(BitsOf(s), 8 * j, ByteBits(s[j]))
  {
    hide BitsOf, LowBits;
    BitsOfSlice(s, j, j + 1);
    BitsOfByte(s[j]);
    assert s[j..j + 1] == [s[j]];
  }

  lemma HoldsSame(x: seq<bool>, pos: nat, a: seq<bool>, b: seq<bool>)
    requires Holds(x, pos, a) && Holds(x, pos, b) && |a| == |b|
    ensures a == b
  {}

  /** Byte 0 tells file data from directives. */
  lemma FirstByte(b: bv8, h: Header, isData: bool)
    requires ByteBits(b) == FlagBits(h, isData)
    ensures (And(b, FILE_DATA_INDICATION_BIT) != 0) == isData
  {
    assert LowBits(b, 8)[3] == BitAt(b, 3) by { LowBitAt(b, 8, 3); }
    assert NatBits(Flag(isData), 1) == [isData];
    assert FlagBits(h, isData)[3] == isData;
  }

  /** Byte 3 holds the two lengths. */
  lemma LengthByte(b: bv8, ids: nat, seqNumber: nat)
    requires 1 <= ids <= 8 && 1 <= seqNumber <= 8 && ByteBits(b) == LengthBits(ids, seqNumber)
    ensures And(Shr(b, 4), LENGTH_MASK) as nat == ids - 1
    ensures And(b, LENGTH_MASK) as nat == seqNumber - 1
  {
    hide BitAt, NatBits, LowBits, And, Shr, Pow2;
    var x := LengthBits(ids, seqNumber);
    var l, r := And(Shr(b, 4), LENGTH_MASK), And(b, LENGTH_MASK);
    assert LENGTH_MASK == MaskB(3);
    MaskBBits(3); AndBits(Shr(b, 4), LENGTH_MASK); AndBits(b, LENGTH_MASK); ShrBits(b, 4);
    forall k | 0 <= k < 3 ensures LowBits(l, 3)[k] == x[1 + k] && LowBits(r, 3)[k] == x[5 + k] {
      LowBitAt(l, 3, k); LowBitAt(r, 3, k); LowBitAt(b, 8, k + 1); LowBitAt(b, 8, k + 5);
    }
    ThreeBits(l, ids - 1); ThreeBits(r, seqNumber - 1);
  }

  lemma ThreeBits(b: bv8, v: nat)
    requires v < 8 && LowBits(b, 3) == NatBits(v, 3) && forall k | 0 <= k < 5 :: !BitAt(b, k)
    ensures b as nat == v
  {
    hide *;
    ByteNat(b, 3);
    PowerValues();
    NatBitsValue(v, 3);
  }

  /** The determinant bytes are the big-endian length. */
  lemma DeterminantBytes(hi: bv8, lo: bv8, n: nat)
    requires ByteBits(hi) + ByteBits(lo) == NatBits(n, 16)
    ensures hi == Cast(n / 0x100) && lo == Cast(n)
  {
    hide NatBits, LowBits, Cast;
    NatBitsSplit(n, 8, 8);
    Pow2Values();
    ShiftRightValue(n, 8);
    CastBits(n / 0x100, 8); CastBits(n, 8);
    SameByte(hi, Cast(n / 0x100)); SameByte(lo, Cast(n));
    var x := NatBits(n, 16);
    assert x[..8] == ByteBits(hi) && x[8..] == ByteBits(lo);
    assert x[..8] == ByteBits(Cast(n / 0x100)) && x[8..] == ByteBits(Cast(n));
  }

  lemma SameByte(a: bv8, b: bv8)
    ensures ByteBits(a) == ByteBits(b) ==> a == b
  {
    hide BitsOf, LowBits;
    BitsOfByte(a); BitsOfByte(b);
    if ByteBits(a) == ByteBits(b) { BitsOfIsInjective([a], [b]); }
  }

  /** The bytes of an encoded PDU that the rewriting depends on. */
  lemma EncodedHeaderBytes(p: Pdu)
    requires Encodable(p)
    ensures var b := EncodedBytes(p);
      && |b| > 4
      && ByteBits(b[0]) == FlagBits(p.header, p.payload.FileData?)
      && ByteBits(b[3]) == LengthBits(|p.header.source|, |p.header.seqNumber|)
  {
    hide PduBits, FlagBits, LengthBits, BitsOf, LowBits, Holds, NatBits, PayloadBits, EncodedBytes;
    var b, x, h := EncodedBytes(p), PduBits(p), p.header;
    FrameSize(p); PayloadSize(p.payload);
    EncodedBytesBits(p);
    HeaderAt(p);
    var p3 := BitsOf(h.source) + (BitsOf(h.seqNumber) + BitsOf(h.destination));
    var p2 := LengthBits(|h.source|, |h.seqNumber|) + p3;
    var p1 := NatBits(PayloadLength(p.payload), 16) + p2;
    HoldsBoth(x, 0, FlagBits(h, p.payload.FileData?), p1);
    HoldsBoth(x, 8, NatBits(PayloadLength(p.payload), 16), p2);
    HoldsBoth(x, 24, LengthBits(|h.source|, |h.seqNumber|), p3);
    ByteOf(b, 0); ByteOf(b, 3);
    HoldsSame(x, 0, ByteBits(b[0]), FlagBits(h, p.payload.FileData?));
    HoldsSame(x, 24, ByteBits(b[3]), LengthBits(|h.source|, |h.seqNumber|));
  }

  lemma HeaderAt(p: Pdu)
    requires Encodable(p)
    ensures Holds(PduBits(p), 0, HeaderBits(p.header, p.payload.FileData?, PayloadLength(p.payload)))
    ensures Holds(PduBits(p), |HeaderBits(p.header, p.payload.FileData?, PayloadLength(p.payload))|, PadToByte(PayloadBits(p.payload)))
  {
    hide HeaderBits, PayloadBits, PadToByte;
  }

  /** Where the determinant and the data of a FileData PDU start. */
  lemma FileDataFields(p: Pdu)
    requires Encodable(p) && p.payload.FileData?
    ensures var h := 8 + 2 * |p.header.source| + |p.header.seqNumber|;
      && |EncodedBytes(p)| == h + 2 + |p.payload.data|
      && Holds(PduBits(p), 8 * h, NatBits(|p.payload.data|, 16))
      && Holds(PduBits(p), 8 * h + 16, BitsOf(p.payload.data))
  {
    hide PduBits, HeaderBits, BitsOf, Holds, NatBits, EncodedBytes;
    var x, h, n := PduBits(p), 8 + 2 * |p.header.source| + |p.header.seqNumber|, |p.payload.data|;
    FrameSize(p);
    HeaderAt(p);
    var body := NatBits(n, 16) + BitsOf(p.payload.data);
    assert PadToByte(PayloadBits(p.payload)) == NatBits(p.payload.offset, 32) + body;
    HoldsBoth(x, 8 * h - 32, NatBits(p.payload.offset, 32), body);
    HoldsBoth(x, 8 * h, NatBits(n, 16), BitsOf(p.payload.data));
  }

  lemma EncodedDeterminant(p: Pdu)
    requires Encodable(p) && p.payload.FileData?
    ensures var b, h := EncodedBytes(p), 8 + 2 * |p.header.source| + |p.header.seqNumber|;
      && |b| == h + 2 + |p.payload.data|
      && b[h] == Cast(|p.payload.data| / 0x100) && b[h + 1] == Cast(|p.payload.data|)
  {
    hide PduBits, BitsOf, LowBits, Holds, NatBits, EncodedBytes, Cast;
    var b, x := EncodedBytes(p), PduBits(p);
    var h, n := 8 + 2 * |p.header.source| + |p.header.seqNumber|, |p.payload.data|;
    FileDataFields(p);
    EncodedBytesBits(p);
    ByteOf(b, h); ByteOf(b, h + 1);
    HoldsTogether(x, 8 * h, ByteBits(b[h]), ByteBits(b[h + 1]));
    HoldsSame(x, 8 * h, ByteBits(b[h]) + ByteBits(b[h + 1]), NatBits(n, 16));
    DeterminantBytes(b[h], b[h + 1], n);
  }

  lemma HoldsTogether(x: seq<bool>, pos: nat, a: seq<bool>, b: seq<bool>)
    requires Holds(x, pos, a) && Holds(x, pos + |a|, b)
    ensures Holds(x, pos, a + b)
  {
    assert x[pos..pos + |a| + |b|] == x[pos..pos + |a|] + x[pos + |a|..pos + |a| + |b|];
  }

  // ---------- frame round trip ----------

  function Shorten(s: seq<bv8>): (r: seq<bv8>)
    requires |s| > 2
    ensures |r| == |s|
  {
    DecrementLength(DecrementLength(s))
  }

  /** Shortening looks at and changes bytes 1 and 2 only. */
  lemma ShortenBytes(s: seq<bv8>, t: seq<bv8>)
    requires |s| > 2 && |t| > 2 && s[1] == t[1] && s[2] == t[2]
    ensures Shorten(s)[1] == Shorten(t)[1] && Shorten(s)[2] == Shorten(t)[2]
    ensures forall k | 0 <= k < |s| && k != 1 && k != 2 :: Shorten(s)[k] == s[k]
  {
    hide Prev;
  }

  lemma LengthenPrefix(s: seq<bv8>, n: nat)
    requires 2 < n <= |s|
    ensures IncrementLength(IncrementLength(s))[..n] == IncrementLength(IncrementLength(s[..n]))
  {
    hide Next;
    assert IncrementLength(s)[..n] == IncrementLength(s[..n]);
    assert IncrementLength(IncrementLength(s))[..n] == IncrementLength(IncrementLength(s)[..n]);
  }

  /** The receiver's shift loops put back exactly what the sender cut out: from the stripped bytes of a
      FileData PDU, whatever junk follows them in the receive buffer, the original bytes come back. */
  lemma InsertRestoresStripped(b: seq<bv8>, length: nat, junk: seq<bv8>)
    requires |b| > 3 && |b| == HeaderWithOffsetSize(b) + 2 + length && length < UINT32 && |junk| >= 34
    requires IsFileData(b)
    requires b[HeaderWithOffsetSize(b)] == Cast(length / 0x100) && b[HeaderWithOffsetSize(b) + 1] == Cast(length)
    ensures InsertedCount(Strip(b, length) + junk, |b| - 2) == |b|
    ensures Insert(Strip(b, length) + junk, |b| - 2)[..|b|] == b
  {
    hide IncrementLength, DecrementLength, Cast, And, Shr, Gap;
    var h, count := HeaderWithOffsetSize(b), |b| - 2;
    var cut := b[..h] + b[h + 2..];
    var m := Strip(b, length) + junk;
    ShortenBytes(cut, b); ShortenBytes(b, cut);
    assert m[0] == b[0] && m[3] == b[3];
    assert (count + UINT32 - h) % UINT32 == length;
    var y := Gap(m, h, count, DETERMINANT_SIZE)[h + 1 := Cast(length)][h := Cast(length / 0x100)];
    forall k | 0 <= k < |b| ensures y[k] == Shorten(b)[k] {
      GapByte(m, h, count, k);
      if k >= h + 2 { assert m[k - 2] == cut[k - 2] == b[k]; }
    }
    assert y[..|b|] == Shorten(b);
    LengthenPrefix(y, |b|);
    IncrementUndoesDecrement(DecrementLength(b)); IncrementUndoesDecrement(b);
  }

  lemma GapByte(m: seq<bv8>, h: nat, count: nat, k: nat)
    requires 0 < h <= count && count + DETERMINANT_SIZE <= |m| && k < |m|
    ensures k < h ==> Gap(m, h, count, DETERMINANT_SIZE)[k] == m[k]
    ensures h + 2 <= k < count + 2 ==> Gap(m, h, count, DETERMINANT_SIZE)[k] == m[k - 2]
  {}

  /** Whatever PDU the sender frames, and whatever bytes follow the frame in the receive buffer, the
      receiver decodes that PDU. */
  lemma FrameRoundTrip(p: Pdu, junk: seq<bv8>)
    requires Encodable(p) && |junk| >= 34
    ensures Unframe(Frame(p) + junk, |Frame(p)|) == Some(p)
  {
    hide PduBits, EncodedBytes, DecodePdu, BitsOf, And, Shr, Cast, Strip, Insert, FlagBits, LengthBits;
    var b, m := EncodedBytes(p), Frame(p) + junk;
    EncodedBytesBits(p);
    EncodedHeaderBytes(p);
    FirstByte(b[0], p.header, p.payload.FileData?);
    LengthByte(b[3], |p.header.source|, |p.header.seqNumber|);
    WholeHolds(PduBits(p));
    PduRoundTrip(PduBits(p), 0, p);
    if p.payload.FileData? {
      EncodedDeterminant(p);
      InsertRestoresStripped(b, |p.payload.data|, junk);
      SameLastByte(p, Insert(m, |Frame(p)|));
    } else {
      assert m[0] == b[0] && m[..|b|] == b;
      assert Insert(m, |b|) == m by { NotInserted(m, |b|); }
    }
  }

  /** Storing the last received byte again changes nothing. */
  lemma SameLastByte(p: Pdu, m: seq<bv8>)
    requires Encodable(p) && p.payload.FileData?
    requires |EncodedBytes(p)| <= |m| && m[..|EncodedBytes(p)|] == EncodedBytes(p)
    ensures WithLastByte(p, m, |EncodedBytes(p)|) == p
  {
    hide EncodedBytes;
    LastDataByte(p);
    var b, data := EncodedBytes(p), p.payload.data;
    if |data| > 0 {
      assert b[|b| - 1] == b[|b| - |data|..][|data| - 1];
      assert data[|data| - 1 := data[|data| - 1]] == data;
    }
  }

  lemma NotInserted(m: seq<bv8>, count: nat)
    requires |m| >= 34 && count + DETERMINANT_SIZE <= |m| && !IsFileData(m)
    ensures Insert(m, count) == m
  {}

  lemma WholeHolds(x: seq<bool>)
    ensures Holds(x, 0, x)
  {
    assert x[0..|x|] == x;
  }

  /** An encoded FileData PDU ends with its data. */
  lemma LastDataByte(p: Pdu)
    requires Encodable(p) && p.payload.FileData?
    ensures var b := EncodedBytes(p); |b| >= |p.payload.data| && b[|b| - |p.payload.data|..] == p.payload.data
  {
    hide PduBits, BitsOf, EncodedBytes;
    var b, data := EncodedBytes(p), p.payload.data;
    FileDataFields(p);
    EncodedBytesBits(p);
    var s := b[|b| - |data|..|b|];
    BitsOfSlice(b, |b| - |data|, |b|);
    assert b[|b| - |data|..] == s;
    BitsOfIsInjective(s, data);
  }
}

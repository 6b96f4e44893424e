/** The checksum loops of src/transaction.c against the modular checksum of section 4.2.2 of
    CCSDS 727.0-B-5: the sum modulo 2^32 of the file's big-endian 32-bit words, the last one padded with
    zeros. */
module Checksums {
  import opened Pdus

  const WORD: nat := 0x1_0000_0000

  // ---------- the standard's definition ----------

  function Min(a: nat, b: nat): nat { if a < b then a else b }

  function Padded(bytes: seq<bv8>): (r: seq<bv8>)
    requires |bytes| <= 4
    ensures |r| == 4
  {
    bytes + seq(4 - |bytes|, _ => 0)
  }

  function BigEndian(w: seq<bv8>): nat
    requires |w| == 4
  {
    (w[0] as nat) * 0x100_0000 + (w[1] as nat) * 0x1_0000 + (w[2] as nat) * 0x100 + w[3] as nat
  }

  function WordSum(data: seq<bv8>): nat {
    if data == [] then 0
    else BigEndian(Padded(data[..Min(4, |data|)])) + WordSum(data[Min(4, |data|)..])
  }

  function ModularChecksum(data: seq<bv8>): nat { WordSum(data) % WORD }

  // ---------- what the loops accumulate ----------

  predicate Negative(b: bv8) { b & 0x80 != 0 }

  /** (uint32_t)c for a `char` c, which may be signed: then a byte of 0x80 or more sets every bit above. */
  function Extend(b: bv8, charSigned: bool): bv32 {
    if charSigned && Negative(b) then 0xFFFF_FF00 | (b as bv32) else b as bv32
  }

  /** w << ((3 - i) * 8) */
  function Place(w: bv32, i: nat): bv32
    requires i < 4
  {
    if i == 0 then w << 24 else if i == 1 then w << 16 else if i == 2 then w << 8 else w
  }

  /** Byte i in place, nothing where there is no byte. */
  function Placed(bytes: seq<bv8>, i: nat, charSigned: bool): bv32
    requires i < 4
  {
    if i < |bytes| then Place(Extend(bytes[i], charSigned), i) else 0
  }

  /** The OR of the placed bytes. */
  function Accumulate(bytes: seq<bv8>, charSigned: bool): bv32
    requires |bytes| <= 4
  {
    Placed(bytes, 0, charSigned) | Placed(bytes, 1, charSigned) | Placed(bytes, 2, charSigned) | Placed(bytes, 3, charSigned)
  }

  function AccumulatedSum(data: seq<bv8>, charSigned: bool): nat {
    if data == [] then 0
    else Accumulate(data[..Min(4, |data|)], charSigned) as nat + AccumulatedSum(data[Min(4, |data|)..], charSigned)
  }

  lemma PlacedPrefix(bytes: seq<bv8>, n: nat, i: nat, charSigned: bool)
    requires n <= |bytes| && i < 4
    ensures Placed(bytes[..n], i, charSigned) == if i < n then Placed(bytes, i, charSigned) else 0
  {
    hide Place, Extend;
  }

  lemma OrIn(a: bv32, b: bv32, c: bv32, p: bv32)
    ensures (0 | 0 | 0 | 0) | p == (p | 0 | 0 | 0)
    ensures (a | 0 | 0 | 0) | p == (a | p | 0 | 0)
    ensures (a | b | 0 | 0) | p == (a | b | p | 0)
    ensures (a | b | c | 0) | p == (a | b | c | p)
  {}

  lemma AccumulateStep(bytes: seq<bv8>, i: nat, charSigned: bool)
    requires i < |bytes| <= 4
    ensures Accumulate(bytes[..i], charSigned) | Place(Extend(bytes[i], charSigned), i) == Accumulate(bytes[..i + 1], charSigned)
  {
    hide Place, Extend;
    var a, b, c := Placed(bytes, 0, charSigned), Placed(bytes, 1, charSigned), Placed(bytes, 2, charSigned);
    OrIn(a, b, c, Place(Extend(bytes[i], charSigned), i));
    PlacedPrefix(bytes, i, 0, charSigned); PlacedPrefix(bytes, i, 1, charSigned);
    PlacedPrefix(bytes, i, 2, charSigned); PlacedPrefix(bytes, i, 3, charSigned);
    PlacedPrefix(bytes, i + 1, 0, charSigned); PlacedPrefix(bytes, i + 1, 1, charSigned);
    PlacedPrefix(bytes, i + 1, 2, charSigned); PlacedPrefix(bytes, i + 1, 3, charSigned);
  }

  lemma AccumulateNothing(charSigned: bool)
    ensures Accumulate([], charSigned) == 0
  {}

  lemma PlacedPadded(bytes: seq<bv8>, i: nat, charSigned: bool)
    requires |bytes| <= 4 && i < 4
    ensures Placed(bytes, i, charSigned) == Placed(Padded(bytes), i, charSigned)
  {
    if i >= |bytes| { assert Padded(bytes)[i] == 0; }
  }

  /** Unsigned bytes do not overlap: their OR is the big-endian word, padded with zeros. */
  lemma UnsignedWord(bytes: seq<bv8>)
    requires |bytes| <= 4
    ensures Accumulate(bytes, false) as nat == BigEndian(Padded(bytes))
  {
    hide Placed;
    var w := Padded(bytes);
    PlacedPadded(bytes, 0, false); PlacedPadded(bytes, 1, false); PlacedPadded(bytes, 2, false); PlacedPadded(bytes, 3, false);
    PlacedUnsigned(w);
    FourBytes(w[0], w[1], w[2], w[3]);
  }

  lemma PlacedUnsigned(w: seq<bv8>)
    requires |w| == 4
    ensures Placed(w, 0, false) == (w[0] as bv32) << 24 && Placed(w, 1, false) == (w[1] as bv32) << 16
    ensures Placed(w, 2, false) == (w[2] as bv32) << 8 && Placed(w, 3, false) == w[3] as bv32
  {}

  lemma FourBytes(b0: bv8, b1: bv8, b2: bv8, b3: bv8)
    ensures (((b0 as bv32) << 24) | ((b1 as bv32) << 16) | ((b2 as bv32) << 8) | (b3 as bv32)) as nat
         == (b0 as nat) * 0x100_0000 + (b1 as nat) * 0x1_0000 + (b2 as nat) * 0x100 + b3 as nat
  {}

  // ---------- signed characters ----------

  /** A signed char of 0x80 or more sets every bit above it: the bytes before it become 0xFF. */
  function Saturated(w: seq<bv8>): (r: seq<bv8>)
    requires |w| == 4
    ensures |r| == 4
  {
    [if Negative(w[1]) || Negative(w[2]) || Negative(w[3]) then 0xFF else w[0],
     if Negative(w[2]) || Negative(w[3]) then 0xFF else w[1],
     if Negative(w[3]) then 0xFF else w[2],
     w[3]]
  }

  /** What sign extension adds to a word. */
  function Extra(w: seq<bv8>): nat
    requires |w| == 4
  {
    (if Negative(w[1]) || Negative(w[2]) || Negative(w[3]) then (0xFF - w[0] as nat) * 0x100_0000 else 0)
    + (if Negative(w[2]) || Negative(w[3]) then (0xFF - w[1] as nat) * 0x1_0000 else 0)
    + (if Negative(w[3]) then (0xFF - w[2] as nat) * 0x100 else 0)
  }

  /** Every byte of 0x80 or more comes first or has only 0xFF before it. */
  predicate SignSafe(w: seq<bv8>)
    requires |w| == 4
  {
    && (Negative(w[1]) ==> w[0] == 0xFF)
    && (Negative(w[2]) ==> w[0] == 0xFF && w[1] == 0xFF)
    && (Negative(w[3]) ==> w[0] == 0xFF && w[1] == 0xFF && w[2] == 0xFF)
  }

  /** What the inner loop makes of a word. */
  function WordValue(w: seq<bv8>, charSigned: bool): nat
    requires |w| == 4
  {
    BigEndian(w) + if charSigned then Extra(w) else 0
  }

  /** A byte with every bit above it set leaves nothing of the bytes before it. */
  lemma SwallowThree(p0: bv32, p1: bv32, p2: bv32, p3: bv32, q0: bv32, q1: bv32, q2: bv32, q3: bv32)
    requires p0 & 0x00FF_FFFF == 0 && p1 & 0xFFFF == 0 && p2 & 0xFF == 0 && p3 == 0xFFFF_FF00 | q3
    requires q0 == 0xFF00_0000 && q1 == 0x00FF_0000 && q2 == 0x0000_FF00
    ensures p0 | p1 | p2 | p3 == q0 | q1 | q2 | q3
  {}

  lemma SwallowTwo(p0: bv32, p1: bv32, p2: bv32, p3: bv32, q0: bv32, q1: bv32, q2: bv32, q3: bv32)
    requires p0 & 0x00FF_FFFF == 0 && p1 & 0xFFFF == 0 && p2 == 0xFFFF_0000 | q2 && p3 == q3
    requires q0 == 0xFF00_0000 && q1 == 0x00FF_0000
    ensures p0 | p1 | p2 | p3 == q0 | q1 | q2 | q3
  {}

  lemma SwallowOne(p0: bv32, p1: bv32, p2: bv32, p3: bv32, q0: bv32, q1: bv32, q2: bv32, q3: bv32)
    requires p0 & 0x00FF_FFFF == 0 && p1 == 0xFF00_0000 | q1 && p2 == q2 && p3 == q3
    requires q0 == 0xFF00_0000
    ensures p0 | p1 | p2 | p3 == q0 | q1 | q2 | q3
  {}

  lemma ShiftedOut(b: bv8)
    ensures (0xFFFF_FF00 | (b as bv32)) << 24 == (b as bv32) << 24
    ensures (0xFFFF_FF00 | (b as bv32)) << 16 == 0xFF00_0000 | ((b as bv32) << 16)
    ensures (0xFFFF_FF00 | (b as bv32)) << 8 == 0xFFFF_0000 | ((b as bv32) << 8)
  {}

  lemma LowZeros(x: bv32)
    ensures (x << 24) & 0x00FF_FFFF == 0 && (x << 16) & 0xFFFF == 0 && (x << 8) & 0xFF == 0
  {}

  /** A placed byte has zeros below it. */
  lemma PlacedLow(w: seq<bv8>, charSigned: bool)
    requires |w| == 4
    ensures Placed(w, 0, charSigned) & 0x00FF_FFFF == 0 && Placed(w, 1, charSigned) & 0xFFFF == 0 && Placed(w, 2, charSigned) & 0xFF == 0
  {
    hide Extend;
    LowZeros(Extend(w[0], charSigned)); LowZeros(Extend(w[1], charSigned)); LowZeros(Extend(w[2], charSigned));
  }

  lemma PlacedOnes(w: seq<bv8>, i: nat)
    requires |w| == 4 && i < 3 && w[i] == 0xFF
    ensures Placed(w, i, false) == if i == 0 then 0xFF00_0000 else if i == 1 then 0x00FF_0000 else 0x0000_FF00
  {}

  lemma PlacedSigned(w: seq<bv8>, s: seq<bv8>, i: nat)
    requires |w| == 4 && |s| == 4 && i < 4 && s[i] == w[i]
    ensures Placed(w, i, true)
         == if !Negative(w[i]) || i == 0 then Placed(s, i, false)
            else if i == 1 then 0xFF00_0000 | Placed(s, i, false)
            else if i == 2 then 0xFFFF_0000 | Placed(s, i, false)
            else 0xFFFF_FF00 | Placed(s, i, false)
  {
    hide Negative;
    ShiftedOut(w[i]);
  }

  lemma SaturateThree(w: seq<bv8>, s: seq<bv8>)
    requires |w| == 4 && s == Saturated(w) && Negative(w[3])
    ensures Accumulate(w, true) == Accumulate(s, false)
  {
    hide Placed, Negative;
    PlacedLow(w, true);
    PlacedOnes(s, 0); PlacedOnes(s, 1); PlacedOnes(s, 2); PlacedSigned(w, s, 3);
    SwallowThree(Placed(w, 0, true), Placed(w, 1, true), Placed(w, 2, true), Placed(w, 3, true),
                 Placed(s, 0, false), Placed(s, 1, false), Placed(s, 2, false), Placed(s, 3, false));
  }

  lemma SaturateTwo(w: seq<bv8>, s: seq<bv8>)
    requires |w| == 4 && s == Saturated(w) && !Negative(w[3]) && Negative(w[2])
    ensures Accumulate(w, true) == Accumulate(s, false)
  {
    hide Placed, Negative;
    PlacedLow(w, true);
    PlacedOnes(s, 0); PlacedOnes(s, 1); PlacedSigned(w, s, 2); PlacedSigned(w, s, 3);
    SwallowTwo(Placed(w, 0, true), Placed(w, 1, true), Placed(w, 2, true), Placed(w, 3, true),
               Placed(s, 0, false), Placed(s, 1, false), Placed(s, 2, false), Placed(s, 3, false));
  }

  lemma SaturateOne(w: seq<bv8>, s: seq<bv8>)
    requires |w| == 4 && s == Saturated(w) && !Negative(w[3]) && !Negative(w[2]) && Negative(w[1])
    ensures Accumulate(w, true) == Accumulate(s, false)
  {
    hide Placed, Negative;
    PlacedLow(w, true);
    PlacedOnes(s, 0); PlacedSigned(w, s, 1); PlacedSigned(w, s, 2); PlacedSigned(w, s, 3);
    SwallowOne(Placed(w, 0, true), Placed(w, 1, true), Placed(w, 2, true), Placed(w, 3, true),
               Placed(s, 0, false), Placed(s, 1, false), Placed(s, 2, false), Placed(s, 3, false));
  }

  lemma SaturateNone(w: seq<bv8>, s: seq<bv8>)
    requires |w| == 4 && s == Saturated(w) && !Negative(w[3]) && !Negative(w[2]) && !Negative(w[1])
    ensures Accumulate(w, true) == Accumulate(s, false)
  {
    hide Placed, Negative;
    PlacedSigned(w, s, 0); PlacedSigned(w, s, 1); PlacedSigned(w, s, 2); PlacedSigned(w, s, 3);
  }

  /** Sign extension of a whole word is saturation. */
  lemma SignedIsSaturated(w: seq<bv8>)
    requires |w| == 4
    ensures Accumulate(w, true) == Accumulate(Saturated(w), false)
  {
    hide Accumulate, Negative, Saturated;
    if Negative(w[3]) { SaturateThree(w, Saturated(w)); }
    else if Negative(w[2]) { SaturateTwo(w, Saturated(w)); }
    else if Negative(w[1]) { SaturateOne(w, Saturated(w)); }
    else { SaturateNone(w, Saturated(w)); }
  }

  lemma AllOnes()
    ensures (0xFF as bv8) as nat == 0xFF
  {}

  lemma AccumulatePadded(bytes: seq<bv8>, charSigned: bool)
    requires |bytes| <= 4
    ensures Accumulate(bytes, charSigned) == Accumulate(Padded(bytes), charSigned)
  {
    hide Placed;
    PlacedPadded(bytes, 0, charSigned); PlacedPadded(bytes, 1, charSigned);
    PlacedPadded(bytes, 2, charSigned); PlacedPadded(bytes, 3, charSigned);
  }

  lemma SaturatedValue(w: seq<bv8>)
    requires |w| == 4
    ensures BigEndian(Saturated(w)) == BigEndian(w) + Extra(w)
  {
    hide Negative;
    AllOnes();
  }

  /** The inner loop's word in numbers, for either kind of char. */
  lemma WordOf(bytes: seq<bv8>, charSigned: bool)
    requires |bytes| <= 4
    ensures Accumulate(bytes, charSigned) as nat == WordValue(Padded(bytes), charSigned)
  {
    hide Accumulate, Extra, BigEndian, Saturated;
    var w := Padded(bytes);
    if charSigned {
      AccumulatePadded(bytes, true);
      SignedIsSaturated(w);
      UnsignedWord(Saturated(w));
      SaturatedValue(w);
      PaddedWhole(Saturated(w));
    } else {
      UnsignedWord(bytes);
    }
  }

  lemma PaddedWhole(w: seq<bv8>)
    requires |w| == 4
    ensures Padded(w) == w
  {}

  lemma SafeIff(w: seq<bv8>)
    requires |w| == 4
    ensures Extra(w) == 0 <==> SignSafe(w)
  {
    hide Negative;
    ByteIsFF(w[0]); ByteIsFF(w[1]); ByteIsFF(w[2]);
  }

  lemma ByteIsFF(b: bv8)
    ensures b as nat <= 0xFF && (b as nat == 0xFF <==> b == 0xFF)
  {}

  lemma SafeIsSaturated(w: seq<bv8>)
    requires |w| == 4 && SignSafe(w)
    ensures Saturated(w) == w
  {
    hide Negative;
  }

  /** With a signed char a word is right exactly when it is sign-safe. */
  lemma SignedWordIff(bytes: seq<bv8>)
    requires |bytes| <= 4
    ensures Accumulate(bytes, true) == Accumulate(bytes, false) <==> SignSafe(Padded(bytes))
  {
    hide Accumulate, Extra, SignSafe, BigEndian, Saturated;
    WordOf(bytes, true); WordOf(bytes, false);
    SafeIff(Padded(bytes));
    if SignSafe(Padded(bytes)) {
      SafeIsSaturated(Padded(bytes));
      SignedIsSaturated(Padded(bytes));
      AccumulatePadded(bytes, true); AccumulatePadded(bytes, false);
    }
  }

  // ---------- the loops ----------

  /** One pass of either loop appends one word to the sum. */
  lemma {:induction false} NextWord(data: seq<bv8>, offset: nat, n: nat, charSigned: bool)
    requires offset % 4 == 0 && offset < |data| && n == Min(4, |data| - offset)
    ensures AccumulatedSum(data[..offset + n], charSigned)
         == AccumulatedSum(data[..offset], charSigned) + Accumulate(data[offset..offset + n], charSigned) as nat
    decreases offset
  {
    hide Accumulate;
    var d := data[..offset + n];
    if offset == 0 {
      assert d[..Min(4, |d|)] == data[0..n] && d[Min(4, |d|)..] == [];
    } else {
      NextWord(data[4..], offset - 4, n, charSigned);
      assert d[..4] == data[..offset][..4] && d[4..] == data[4..][..offset - 4 + n];
      assert data[..offset][4..] == data[4..][..offset - 4] && data[4..][offset - 4..offset - 4 + n] == data[offset..offset + n];
    }
  }

  /** The inner loop: the bytes of one word, ORed into place. */
  method OrBytes(w: seq<bv8>, charSigned: bool) returns (value: bv32)
    requires |w| <= 4
    ensures value == Accumulate(w, charSigned)
  {
    hide Accumulate;
    value := 0;
    AccumulateNothing(charSigned);
    assert w[..0] == [];
    for i := 0 to |w|
      invariant value == Accumulate(w[..i], charSigned)
    {
      AccumulateStep(w, i, charSigned);
      value := value | Place(Extend(w[i], charSigned), i);
    }
    assert w[..|w|] == w;
  }

  /** `offset > length - 4` on 32-bit numbers: the last word may be short, but for lengths 1 to 3 the
      difference wraps and a whole word is taken. */
  function BytesToRead(length: nat, offset: nat): (n: nat)
    requires offset < length < WORD && offset % 4 == 0
    ensures n == if length < 4 then 4 else Min(4, length - offset)
  {
    if offset > (length + WORD - 4) % WORD then length % 4 else 4
  }

  /** One pass: the sum of what is read so far, and where the cursor stands. */
  ghost predicate SummedUpTo(d: seq<bv8>, offset: nat, charSigned: bool, checksum: nat) {
    && (offset % 4 == 0 || offset >= |d|)
    && checksum == AccumulatedSum(d[..Min(offset, |d|)], charSigned) % WORD
  }

  lemma NothingSummed(d: seq<bv8>, charSigned: bool)
    ensures SummedUpTo(d, 0, charSigned, 0)
  {}

  lemma SumGoesOn(d: seq<bv8>, offset: nat, n: nat, next: nat, charSigned: bool, checksum: nat)
    requires SummedUpTo(d, offset, charSigned, checksum) && offset < |d| && n == Min(4, |d| - offset)
    requires next == offset + n || next == offset + 4
    ensures SummedUpTo(d, next, charSigned, (checksum + Accumulate(d[offset..offset + n], charSigned) as nat) % WORD)
  {
    hide Accumulate, AccumulatedSum;
    assert offset % 4 == 0 && (n == 4 || next >= |d|);
    NextWord(d, offset, n, charSigned);
    assert d[..Min(offset, |d|)] == d[..offset] && d[..Min(next, |d|)] == d[..offset + n];
    ModuloStep(AccumulatedSum(d[..offset], charSigned), Accumulate(d[offset..offset + n], charSigned) as nat);
  }

  lemma ModuloStep(a: nat, v: nat)
    ensures (a % WORD + v) % WORD == (a + v) % WORD
  {}

  lemma AllSummed(d: seq<bv8>, offset: nat, charSigned: bool, checksum: nat)
    requires SummedUpTo(d, offset, charSigned, checksum) && offset >= |d|
    ensures checksum == AccumulatedSum(d, charSigned) % WORD
  {
    assert d[..|d|] == d;
  }

  /** The checksum of a listing held in memory: the modular checksum, taken for lengths 1 to 3 over a
      whole word, beyond the data. */
  function DataChecksumOf(data: seq<bv8>, length: nat, kind: ChecksumType): nat
    requires length <= |data| && (1 <= length <= 3 ==> 4 <= |data|)
  {
    if kind == Modular then ModularChecksum(if 1 <= length <= 3 then data[..4] else data[..length]) else 0
  }

  method DataChecksum(data: seq<bv8>, length: nat, kind: ChecksumType) returns (checksum: nat)
    requires length <= |data| && length < WORD && (1 <= length <= 3 ==> 4 <= |data|)
    ensures checksum == DataChecksumOf(data, length, kind)
  {
    hide Accumulate, WordSum, AccumulatedSum, SummedUpTo;
    if kind != Modular {
      return 0;
    }
    ghost var m: nat := if 1 <= length <= 3 then 4 else length;
    ghost var d := data[..m];
    checksum := 0;
    var offset := 0;
    NothingSummed(d, false);
    while offset < length
      invariant offset % 4 == 0 && SummedUpTo(d, offset, false, checksum)
      invariant length <= offset ==> |d| <= offset
      decreases length - offset
    {
      var bytesToRead := BytesToRead(length, offset);
      SliceOfPrefix(data, m, offset, offset + bytesToRead);
      var value := OrBytes(data[offset..offset + bytesToRead], false);
      SumGoesOn(d, offset, bytesToRead, offset + 4, false, checksum);
      checksum := (checksum + value as nat) % WORD;
      offset := offset + 4;
    }
    AllSummed(d, offset, false, checksum);
    UnsignedSum(d);
  }

  /** The bytes a stored file's checksum is taken over. The size is cut to 32 bits. For sizes 1 to 3 the
      loop asks for four bytes, which a shorter file does not have, and sums what is in the buffer after
      the failed read. */
  function ChecksummedBytes(file: seq<bv8>, stale: seq<bv8>): seq<bv8>
    requires |stale| == 4
  {
    var size := |file| % WORD;
    if 1 <= size <= 3 then (if |file| >= 4 then file[..4] else stale) else file[..size]
  }

  function FileChecksumOf(file: seq<bv8>, stale: seq<bv8>, charSigned: bool, kind: ChecksumType): nat
    requires |stale| == 4
  {
    if kind == Modular then AccumulatedSum(ChecksummedBytes(file, stale), charSigned) % WORD else 0
  }

  /** filestore_read into the four-byte buffer. A read of more than there is fails; stale, which the buffer
      holds then, stands for whatever it leaves there. */
  function Refill(file: seq<bv8>, buffer: seq<bv8>, offset: nat, n: nat): (r: seq<bv8>)
    requires |buffer| == 4 && n <= 4
    ensures |r| == 4
  {
    if offset + n <= |file| then file[offset..offset + n] + buffer[n..] else buffer
  }

  lemma RefillIs(file: seq<bv8>, stale: seq<bv8>, buffer: seq<bv8>, offset: nat, n: nat)
    requires |stale| == 4 && |buffer| == 4 && (offset == 0 ==> buffer == stale)
    requires offset < |file| % WORD && offset % 4 == 0 && n == BytesToRead(|file| % WORD, offset)
    ensures var d := ChecksummedBytes(file, stale);
      offset + n <= |d| && Refill(file, buffer, offset, n)[..n] == d[offset..offset + n]
  {
    var size := |file| % WORD;
    if size < 4 {
      assert offset == 0 && n == 4 && ChecksummedBytes(file, stale)[0..4] == ChecksummedBytes(file, stale);
    } else {
      SliceOfPrefix(file, size, offset, offset + n);
    }
  }

  lemma SliceOfPrefix(s: seq<bv8>, m: nat, i: nat, j: nat)
    requires i <= j <= m <= |s|
    ensures s[..m][i..j] == s[i..j]
  {}

  method FileChecksum(file: seq<bv8>, stale: seq<bv8>, charSigned: bool, kind: ChecksumType) returns (checksum: nat)
    requires |stale| == 4
    ensures checksum == FileChecksumOf(file, stale, charSigned, kind)
  {
    hide Accumulate, AccumulatedSum, SummedUpTo;
    if kind != Modular {
      return 0;
    }
    var fileSize := |file| % WORD;
    ghost var d := ChecksummedBytes(file, stale);
    var buffer := stale;
    checksum := 0;
    var offset := 0;
    NothingSummed(d, charSigned);
    while offset < fileSize
      invariant offset % 4 == 0 || offset >= fileSize
      invariant |buffer| == 4 && (offset == 0 ==> buffer == stale)
      invariant SummedUpTo(d, offset, charSigned, checksum)
      invariant fileSize <= offset ==> |d| <= offset
      decreases fileSize - offset
    {
      var bytesToRead := BytesToRead(fileSize, offset);
      RefillIs(file, stale, buffer, offset, bytesToRead);
      buffer := Refill(file, buffer, offset, bytesToRead);
      var value := OrBytes(buffer[..bytesToRead], charSigned);
      SumGoesOn(d, offset, bytesToRead, offset + bytesToRead, charSigned, checksum);
      checksum := (checksum + value as nat) % WORD;
      offset := offset + bytesToRead;
    }
    AllSummed(d, offset, charSigned, checksum);
  }

  /** What sign extension adds to the words of a file. */
  function ExtraSum(data: seq<bv8>): nat {
    if data == [] then 0 else Extra(Padded(data[..Min(4, |data|)])) + ExtraSum(data[Min(4, |data|)..])
  }

  lemma {:induction false} SumInNumbers(data: seq<bv8>, charSigned: bool)
    ensures AccumulatedSum(data, charSigned) == WordSum(data) + if charSigned then ExtraSum(data) else 0
  {
    hide Accumulate, Extra, BigEndian;
    if data != [] {
      WordOf(data[..Min(4, |data|)], charSigned);
      SumInNumbers(data[Min(4, |data|)..], charSigned);
    }
  }

  /** Without a checksum type, the checksum is 0. */
  lemma NullChecksum(data: seq<bv8>, length: nat, stale: seq<bv8>, charSigned: bool)
    requires |stale| == 4 && length <= |data| && (1 <= length <= 3 ==> 4 <= |data|)
    ensures FileChecksumOf(data, stale, charSigned, NoChecksum) == DataChecksumOf(data, length, NoChecksum) == 0
  {}

  /** But for files of 1 to 3 bytes, the stored file's checksum is the standard one if and only if char is
      unsigned, or what sign extension adds vanishes modulo 2^32. */
  lemma FileChecksumIff(file: seq<bv8>, stale: seq<bv8>, charSigned: bool)
    requires |stale| == 4 && |file| < WORD && !(1 <= |file| <= 3)
    ensures FileChecksumOf(file, stale, charSigned, Modular) == ModularChecksum(file) <==> !charSigned || ExtraSum(file) % WORD == 0
  {
    hide AccumulatedSum, WordSum, ExtraSum;
    assert ChecksummedBytes(file, stale) == file[..|file|] == file;
    SumInNumbers(file, charSigned);
    if charSigned { AddsNothing(WordSum(file), ExtraSum(file)); }
  }

  lemma AddsNothing(a: nat, e: nat)
    ensures (a + e) % WORD == a % WORD <==> e % WORD == 0
  {}

  /** Bytes below 0x80 add nothing. */
  lemma {:induction false} LowBytesAddNothing(data: seq<bv8>)
    requires forall i | 0 <= i < |data| :: !Negative(data[i])
    ensures ExtraSum(data) == 0
  {
    hide Negative;
    if data != [] {
      NotNegativeZero();
      LowBytesAddNothing(data[Min(4, |data|)..]);
    }
  }

  lemma NotNegativeZero()
    ensures !Negative(0)
  {}

  /** One byte of 0x80 or more after a byte that is not 0xFF spoils the checksum of a signed char. */
  lemma SignedCharCounterexample(stale: seq<bv8>)
    requires |stale| == 4
    ensures FileChecksumOf([0, 0x80, 0, 0], stale, true, Modular) != ModularChecksum([0, 0x80, 0, 0])
  {
    var f: seq<bv8> := [0, 0x80, 0, 0];
    assert f[..4] == f && f[4..] == [] && Padded(f) == f;
    assert Extra(f) == 0xFF00_0000;
    FileChecksumIff(f, stale, true);
  }

  /** Two spoilt words can cancel out: what each adds is half of 2^32. */
  lemma SignedCharCoincidence(stale: seq<bv8>)
    requires |stale| == 4
    ensures var f: seq<bv8> := [0x7F, 0x80, 0, 0, 0x7F, 0x80, 0, 0];
      !SignSafe(f[..4]) && FileChecksumOf(f, stale, true, Modular) == ModularChecksum(f)
  {
    var w: seq<bv8> := [0x7F, 0x80, 0, 0];
    var f := w + w;
    assert f == [0x7F, 0x80, 0, 0, 0x7F, 0x80, 0, 0];
    assert f[..4] == w && f[4..] == w && w[..4] == w && w[4..] == [] && Padded(w) == w;
    assert Extra(w) == 0x8000_0000;
    assert ExtraSum(f) == Extra(w) + ExtraSum(w) && ExtraSum(w) == Extra(w) + ExtraSum([]);
    FileChecksumIff(f, stale, true);
  }

  // ---------- one to three bytes ----------

  lemma OneWord(w: seq<bv8>, charSigned: bool)
    requires |w| == 4
    ensures AccumulatedSum(w, charSigned) == WordValue(w, charSigned)
  {
    hide Accumulate, WordValue;
    assert w[..4] == w && w[4..] == [];
    WordOf(w, charSigned);
    PaddedWhole(w);
  }

  lemma WordValueBound(w: seq<bv8>, charSigned: bool)
    requires |w| == 4
    ensures WordValue(w, charSigned) < WORD
  {
    hide BigEndian, Extra, Saturated;
    BigEndianBound(w); BigEndianBound(Saturated(w));
    SaturatedValue(w);
  }

  lemma StaleChecksum(file: seq<bv8>, stale: seq<bv8>, charSigned: bool)
    requires 1 <= |file| <= 3 && |stale| == 4
    ensures FileChecksumOf(file, stale, charSigned, Modular) == WordValue(stale, charSigned) < WORD
  {
    hide WordValue, AccumulatedSum;
    assert ChecksummedBytes(file, stale) == stale;
    OneWord(stale, charSigned);
    WordValueBound(stale, charSigned);
  }

  /** For a file of 1 to 3 bytes the checksum is that of memory nobody has filled: two computations agree
      exactly when the words found there count the same, with an unsigned char when they are the same. */
  lemma ShortFileChecksumIff(file: seq<bv8>, x: seq<bv8>, y: seq<bv8>, charSigned: bool)
    requires 1 <= |file| <= 3 && |x| == 4 && |y| == 4
    ensures FileChecksumOf(file, x, charSigned, Modular) == FileChecksumOf(file, y, charSigned, Modular)
       <==> WordValue(x, charSigned) == WordValue(y, charSigned)
    ensures WordValue(x, false) == WordValue(y, false) <==> x == y
  {
    hide BigEndian, Extra, FileChecksumOf;
    StaleChecksum(file, x, charSigned); StaleChecksum(file, y, charSigned);
    SameBigEndian(x, y);
  }

  /** It is the standard one exactly when that memory counts as the padded file does, with an unsigned
      char when it happens to hold the padded file. */
  lemma ShortFileIsModularIff(file: seq<bv8>, stale: seq<bv8>, charSigned: bool)
    requires 1 <= |file| <= 3 && |stale| == 4
    ensures FileChecksumOf(file, stale, charSigned, Modular) == ModularChecksum(file)
       <==> WordValue(stale, charSigned) == BigEndian(Padded(file))
    ensures WordValue(stale, false) == BigEndian(Padded(file)) <==> stale == Padded(file)
  {
    hide BigEndian, Extra, FileChecksumOf;
    StaleChecksum(file, stale, charSigned);
    ShortSum(file);
    SameBigEndian(stale, Padded(file));
  }

  lemma ShortSum(data: seq<bv8>)
    requires 1 <= |data| <= 4
    ensures ModularChecksum(data) == BigEndian(Padded(data)) < WORD
  {
    hide BigEndian, Padded;
    assert data[..|data|] == data && data[|data|..] == [] && WordSum(data[|data|..]) == 0;
    BigEndianBound(Padded(data));
  }

  lemma BigEndianBound(w: seq<bv8>)
    requires |w| == 4
    ensures BigEndian(w) < WORD
  {
    ByteIsFF(w[0]); ByteIsFF(w[1]); ByteIsFF(w[2]); ByteIsFF(w[3]);
  }

  /** For a listing of 1 to 3 bytes the checksum is the standard one exactly when zeros lie behind it. */
  lemma ShortDataIsModularIff(data: seq<bv8>, length: nat)
    requires 1 <= length <= 3 && 4 <= |data|
    ensures DataChecksumOf(data, length, Modular) == ModularChecksum(data[..length]) <==> forall i | length <= i < 4 :: data[i] == 0
  {
    hide BigEndian, ModularChecksum;
    ShortSum(data[..4]); ShortSum(data[..length]);
    PaddedWhole(data[..4]);
    SameBigEndian(data[..4], Padded(data[..length]));
    assert forall i | 0 <= i < length :: Padded(data[..length])[i] == data[..4][i];
    assert forall i | length <= i < 4 :: data[..4][i] == data[i];
  }

  lemma SameBigEndian(x: seq<bv8>, y: seq<bv8>)
    requires |x| == 4 && |y| == 4
    ensures BigEndian(x) == BigEndian(y) <==> x == y
  {
    if BigEndian(x) == BigEndian(y) {
      SameDigits(x[0] as nat, x[1] as nat, x[2] as nat, x[3] as nat, y[0] as nat, y[1] as nat, y[2] as nat, y[3] as nat);
      SameByte(x[0], y[0]); SameByte(x[1], y[1]); SameByte(x[2], y[2]); SameByte(x[3], y[3]);
      assert x == [x[0], x[1], x[2], x[3]] && y == [y[0], y[1], y[2], y[3]];
    }
  }

  lemma SameByte(a: bv8, b: bv8)
    ensures a as nat == b as nat ==> a == b
  {}

  lemma LastDigit(a: nat, b: nat, c: nat, d: nat)
    requires b < 0x100 && d < 0x100 && 0x100 * a + b == 0x100 * c + d
    ensures a == c && b == d
  {}

  lemma SameDigits(a0: nat, a1: nat, a2: nat, a3: nat, b0: nat, b1: nat, b2: nat, b3: nat)
    requires a1 < 0x100 && a2 < 0x100 && a3 < 0x100 && b1 < 0x100 && b2 < 0x100 && b3 < 0x100
    requires a0 * 0x100_0000 + a1 * 0x1_0000 + a2 * 0x100 + a3 == b0 * 0x100_0000 + b1 * 0x1_0000 + b2 * 0x100 + b3
    ensures a0 == b0 && a1 == b1 && a2 == b2 && a3 == b3
  {
    LastDigit(a0 * 0x1_0000 + a1 * 0x100 + a2, a3, b0 * 0x1_0000 + b1 * 0x100 + b2, b3);
    LastDigit(a0 * 0x100 + a1, a2, b0 * 0x100 + b1, b2);
    LastDigit(a0, a1, b0, b1);
  }

  // ---------- segments ----------

  /** Cutting at a multiple of four cuts the sum. */
  lemma {:induction false} WordSumConcat(a: seq<bv8>, b: seq<bv8>)
    requires |a| % 4 == 0
    ensures WordSum(a + b) == WordSum(a) + WordSum(b)
  {
    if a == [] {
      assert a + b == b;
    } else {
      var s := a + b;
      assert s[..4] == a[..4] && s[4..] == a[4..] + b;
      WordSumConcat(a[4..], b);
    }
  }

  function Flatten(segments: seq<seq<bv8>>): seq<bv8> {
    if segments == [] then [] else segments[0] + Flatten(segments[1..])
  }

  function SegmentSum(segments: seq<seq<bv8>>): nat {
    if segments == [] then 0 else ModularChecksum(segments[0]) + SegmentSum(segments[1..])
  }

  /** The file's checksum is the sum of its segments' checksums when every segment but the last is a
      whole number of words. */
  lemma {:induction false} SegmentsInOrder(segments: seq<seq<bv8>>)
    requires forall i | 0 <= i < |segments| - 1 :: |segments[i]| % 4 == 0
    ensures ModularChecksum(Flatten(segments)) == SegmentSum(segments) % WORD
  {
    hide WordSum;
    if segments != [] {
      SegmentsInOrder(segments[1..]);
      if |segments| == 1 {
        assert Flatten(segments) == segments[0] && SegmentSum(segments) == ModularChecksum(segments[0]);
      } else {
        WordSumConcat(segments[0], Flatten(segments[1..]));
        AddModulo(WordSum(segments[0]), WordSum(Flatten(segments[1..])), SegmentSum(segments[1..]));
      }
    } else {
      assert WordSum([]) == 0 by { NothingToSum(); }
    }
  }

  lemma NothingToSum()
    ensures WordSum([]) == 0
  {}

  lemma AddModulo(a: nat, b: nat, c: nat)
    requires b % WORD == c % WORD
    ensures (a + b) % WORD == (a % WORD + c) % WORD
  {}

  /** The order in which segments are summed does not matter. */
  lemma {:induction false} SegmentsInAnyOrder(s: seq<seq<bv8>>, t: seq<seq<bv8>>)
    requires multiset(s) == multiset(t)
    ensures SegmentSum(s) == SegmentSum(t)
  {
    hide ModularChecksum;
    if s == [] {
      assert |multiset(t)| == 0;
    } else {
      assert s[0] in multiset(t);
      var k :| 0 <= k < |t| && t[k] == s[0];
      RestsAgree(s, t, k);
      SegmentsInAnyOrder(s[1..], t[..k] + t[k + 1..]);
      SegmentSumWithout(t, k);
    }
  }

  lemma RestsAgree(s: seq<seq<bv8>>, t: seq<seq<bv8>>, k: nat)
    requires multiset(s) == multiset(t) && s != [] && k < |t| && t[k] == s[0]
    ensures multiset(s[1..]) == multiset(t[..k] + t[k + 1..])
  {
    Without(s, 0);
    Without(t, k);
    assert s[..0] + s[1..] == s[1..];
  }

  lemma Without(s: seq<seq<bv8>>, k: nat)
    requires k < |s|
    ensures multiset(s[..k] + s[k + 1..]) == multiset(s) - multiset{s[k]}
  {
    assert s == s[..k] + [s[k]] + s[k + 1..];
  }

  lemma SegmentSumWithout(s: seq<seq<bv8>>, k: nat)
    requires k < |s|
    ensures SegmentSum(s) == ModularChecksum(s[k]) + SegmentSum(s[..k] + s[k + 1..])
  {
    hide ModularChecksum;
    SegmentSumConcat(s[..k], s[k..]);
    SegmentSumConcat(s[..k], s[k + 1..]);
    assert s == s[..k] + s[k..] && s[k..][1..] == s[k + 1..];
  }

  lemma {:induction false} SegmentSumConcat(a: seq<seq<bv8>>, b: seq<seq<bv8>>)
    ensures SegmentSum(a + b) == SegmentSum(a) + SegmentSum(b)
  {
    if a == [] {
      assert a + b == b;
    } else {
      assert (a + b)[1..] == a[1..] + b;
      SegmentSumConcat(a[1..], b);
    }
  }

  lemma {:induction false} UnsignedSum(data: seq<bv8>)
    ensures AccumulatedSum(data, false) == WordSum(data)
  {
    hide Accumulate;
    if data != [] {
      UnsignedWord(data[..Min(4, |data|)]);
      UnsignedSum(data[Min(4, |data|)..]);
    }
  }
}

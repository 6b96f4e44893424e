/** The two-byte length determinant of the file data is cut out of an encoded FileData PDU before it is
    sent (src/sender_machine.c) and put back before a received PDU is decoded (src/cfdp_core.c). Both
    work on raw bytes and adjust the 16-bit data field length in bytes 1 and 2. */
module Framing {
  import opened Bits
  import opened Integers

  const DETERMINANT_SIZE: nat := 2

  function Next(b: bv8): bv8 { b + 1 }

  function Prev(b: bv8): bv8 { b - 1 }

  lemma ByteSteps(b: bv8)
    ensures Next(b) as nat == if b as nat == 0xFF then 0 else b as nat + 1
    ensures Prev(b) as nat == if b as nat == 0 then 0xFF else b as nat - 1
    ensures Next(b) == 0x00 <==> b as nat == 0xFF
    ensures Prev(b) == 0xFF <==> b as nat == 0
    ensures b as nat < 0x100
  {}

  /** The big-endian number in bytes 1 and 2. */
  function FieldLength(s: seq<bv8>): nat
    requires |s| > 2
  {
    (s[1] as nat) * 0x100 + s[2] as nat
  }

  /** `if (--s[2] == 0xFF) s[1]--` */
  function DecrementLength(s: seq<bv8>): (r: seq<bv8>)
    requires |s| > 2
    ensures |r| == |s|
  {
    var t := s[2 := Prev(s[2])];
    if t[2] == 0xFF then t[1 := Prev(t[1])] else t
  }

  /** `if (++s[2] == 0x00) s[1]++` */
  function IncrementLength(s: seq<bv8>): (r: seq<bv8>)
    requires |s| > 2
    ensures |r| == |s|
  {
    var t := s[2 := Next(s[2])];
    if t[2] == 0x00 then t[1 := Next(t[1])] else t
  }

  /** Borrow and carry between the two bytes are those of a 16-bit number. */
  lemma DecrementLengthValue(s: seq<bv8>)
    requires |s| > 2
    ensures FieldLength(DecrementLength(s)) == (FieldLength(s) + 0xFFFF) % 0x1_0000
  {
    hide Prev, DecrementLength;
    DecrementedBytes(s);
    ByteSteps(s[1]); ByteSteps(s[2]);
    Borrow(s[1] as nat, s[2] as nat);
  }

  lemma DecrementedBytes(s: seq<bv8>)
    requires |s| > 2
    ensures var r := DecrementLength(s); r[2] == Prev(s[2]) && r[1] == if Prev(s[2]) == 0xFF then Prev(s[1]) else s[1]
  {
    hide Prev;
  }

  lemma IncrementedBytes(s: seq<bv8>)
    requires |s| > 2
    ensures var r := IncrementLength(s); r[2] == Next(s[2]) && r[1] == if Next(s[2]) == 0x00 then Next(s[1]) else s[1]
  {
    hide Next;
  }

  lemma Borrow(hi: nat, lo: nat)
    requires hi < 0x100 && lo < 0x100
    ensures (hi * 0x100 + lo + 0xFFFF) % 0x1_0000
         == if lo > 0 then hi * 0x100 + lo - 1 else if hi > 0 then (hi - 1) * 0x100 + 0xFF else 0xFFFF
  {}

  lemma IncrementLengthValue(s: seq<bv8>)
    requires |s| > 2
    ensures FieldLength(IncrementLength(s)) == (FieldLength(s) + 1) % 0x1_0000
  {
    hide Next, IncrementLength;
    IncrementedBytes(s);
    ByteSteps(s[1]); ByteSteps(s[2]);
    Carry(s[1] as nat, s[2] as nat);
  }

  lemma Carry(hi: nat, lo: nat)
    requires hi < 0x100 && lo < 0x100
    ensures (hi * 0x100 + lo + 1) % 0x1_0000
         == if lo < 0xFF then hi * 0x100 + lo + 1 else if hi < 0xFF then (hi + 1) * 0x100 else 0
  {}

  lemma IncrementUndoesDecrement(s: seq<bv8>)
    requires |s| > 2
    ensures IncrementLength(DecrementLength(s)) == s
  {
    assert Next(Prev(s[1])) == s[1] && Next(Prev(s[2])) == s[2];
    assert Prev(s[2]) == 0xFF <==> s[2] == 0;
    assert IncrementLength(DecrementLength(s))[2] == s[2];
  }

  // ---------- sender ----------

  /** The sent form of an encoded PDU whose last length bytes are file data: the two bytes before them
      are gone and the data field is two bytes shorter. */
  function Strip(s: seq<bv8>, length: nat): (r: seq<bv8>)
    requires length + 5 <= |s|
    ensures |r| == |s| - DETERMINANT_SIZE
  {
    var h := |s| - length - DETERMINANT_SIZE;
    DecrementLength(DecrementLength(s[..h] + s[h + DETERMINANT_SIZE..]))
  }

  method DecrementOnce(buf: array<bv8>)
    requires buf.Length > 2
    modifies buf
    ensures buf[..] == DecrementLength(old(buf[..]))
  {
    hide Prev;
    ghost var s := buf[..];
    buf[2] := Prev(buf[2]);
    ghost var t := buf[..];
    assert t == s[2 := Prev(s[2])];
    if buf[2] == 0xFF {
      buf[1] := Prev(buf[1]);
      assert buf[..] == t[1 := Prev(t[1])];
    }
  }

  method ShortenField(buf: array<bv8>)
    requires buf.Length > 2
    modifies buf
    ensures buf[..] == DecrementLength(DecrementLength(old(buf[..])))
  {
    hide DecrementLength;
    ghost var m := buf[..];
    for i := 0 to DETERMINANT_SIZE
      invariant i == 0 ==> buf[..] == m
      invariant i == 1 ==> buf[..] == DecrementLength(m)
      invariant i == 2 ==> buf[..] == DecrementLength(DecrementLength(m))
    {
      DecrementOnce(buf);
    }
  }

  lemma DecrementPrefix(s: seq<bv8>, n: nat)
    requires 2 < n <= |s|
    ensures DecrementLength(s)[..n] == DecrementLength(s[..n])
  {
    hide Prev;
  }

  method StripDeterminant(pduBuffer: array<bv8>, modified: array<bv8>, currentByte: nat, length: nat)
    requires pduBuffer != modified && pduBuffer.Length == modified.Length
    requires length + 5 <= currentByte <= pduBuffer.Length
    modifies modified
    ensures modified[..currentByte - DETERMINANT_SIZE] == Strip(pduBuffer[..currentByte], length)
  {
    hide DecrementLength;
    var determinantIndex := currentByte - length - 1;
    forall j | 0 <= j < modified.Length { modified[j] := 0; }
    forall j | 0 <= j < determinantIndex - 1 { modified[j] := pduBuffer[j]; }
    forall j | 0 <= j < length { modified[determinantIndex - 1 + j] := pduBuffer[determinantIndex + 1 + j]; }
    ghost var n, s, m := currentByte - DETERMINANT_SIZE, pduBuffer[..currentByte], modified[..];
    ghost var h := determinantIndex - 1;
    assert m[..n] == s[..h] + s[h + DETERMINANT_SIZE..];
    ShortenField(modified);
    DecrementPrefix(m, n); DecrementPrefix(DecrementLength(m), n);
    assert modified[..n] == modified[..][..n];
  }

  // ---------- receiver ----------

  const FILE_DATA_INDICATION_BIT: bv8 := 0x10
  const LENGTH_MASK: bv8 := 0x07

  predicate IsFileData(s: seq<bv8>)
    requires |s| > 0
  {
    And(s[0], FILE_DATA_INDICATION_BIT) != 0
  }

  /** Header and segment offset, from the two length fields of byte 3. */
  function HeaderWithOffsetSize(s: seq<bv8>): nat
    requires |s| > 3
  {
    var ids := And(Shr(s[3], 4), LENGTH_MASK) as nat + 1;
    var seqNumber := And(s[3], LENGTH_MASK) as nat + 1;
    8 + 2 * ids + seqNumber
  }

  /** m with the bytes from h on moved up by two; byte h - 1 is repeated in the gap. */
  function Gap(m: seq<bv8>, h: nat, count: nat, width: nat): (r: seq<bv8>)
    requires 0 < h && count + width <= |m|
    ensures |r| == |m|
  {
    seq(|m|, k requires 0 <= k < |m| =>
      if count < h || k < h || count + width <= k then m[k] else if k < h + width then m[h - 1] else m[k - width])
  }

  /** What the receive buffer m holds after the determinant has been put back behind the segment offset;
      the file data size is the 32-bit difference of the byte count and the header size. */
  function Insert(m: seq<bv8>, count: nat): (r: seq<bv8>)
    requires |m| >= 34 && count + DETERMINANT_SIZE <= |m|
    ensures |r| == |m|
  {
    if count < 1 || !IsFileData(m) then m else
    var h := HeaderWithOffsetSize(m);
    var size := (count + UINT32 - h) % UINT32;
    IncrementLength(IncrementLength(Gap(m, h, count, DETERMINANT_SIZE)[h + 1 := Cast(size)][h := Cast(size / 0x100)]))
  }

  function InsertedCount(m: seq<bv8>, count: nat): nat
    requires |m| > 0
  {
    if count < 1 || !IsFileData(m) then count else count + DETERMINANT_SIZE
  }

  lemma HeaderSizeBound(s: seq<bv8>)
    requires |s| > 3
    ensures HeaderWithOffsetSize(s) <= 32
  {}

  /** Moves the bytes from first up to last - 1 one place up. */
  method MoveUp(buf: array<bv8>, first: nat, last: nat)
    requires last < buf.Length
    modifies buf
    ensures forall k | 0 <= k < buf.Length :: buf[k] == if first < k <= last then old(buf[k - 1]) else old(buf[k])
  {
    var j := last;
    while j > first
      invariant last <= first ==> j == last
      invariant first < last ==> first <= j <= last
      invariant forall k | 0 <= k < buf.Length :: buf[k] == if j < k <= last then old(buf[k - 1]) else old(buf[k])
    {
      buf[j] := buf[j - 1];
      j := j - 1;
    }
  }

  /** Two passes move everything from the header's end on by one byte each. */
  method MakeGap(buf: array<bv8>, h: nat, count: nat)
    requires 0 < h && count + DETERMINANT_SIZE <= buf.Length
    modifies buf
    ensures buf[..] == Gap(old(buf[..]), h, count, DETERMINANT_SIZE)
  {
    hide Gap;
    ghost var m := buf[..];
    NoGap(m, h, count);
    for i := 0 to DETERMINANT_SIZE
      invariant buf[..] == Gap(m, h, count, i)
    {
      ghost var b := buf[..];
      MoveUp(buf, h - 1 + i, count + i);
      WiderGap(m, b, buf[..], h, count, i);
    }
  }

  lemma NoGap(m: seq<bv8>, h: nat, count: nat)
    requires 0 < h && count <= |m|
    ensures Gap(m, h, count, 0) == m
  {}

  lemma WiderGap(m: seq<bv8>, b: seq<bv8>, b': seq<bv8>, h: nat, count: nat, i: nat)
    requires 0 < h && count + i + 1 <= |m| && b == Gap(m, h, count, i) && |b'| == |b|
    requires forall k | 0 <= k < |b| :: b'[k] == if h - 1 + i < k <= count + i then b[k - 1] else b[k]
    ensures b' == Gap(m, h, count, i + 1)
  {
    forall k | 0 <= k < |b| ensures b'[k] == Gap(m, h, count, i + 1)[k] {
      if h - 1 + i < k <= count + i { assert b'[k] == b[k - 1]; } else { assert b'[k] == b[k]; }
    }
  }

  method IncrementOnce(buf: array<bv8>)
    requires buf.Length > 2
    modifies buf
    ensures buf[..] == IncrementLength(old(buf[..]))
  {
    hide Next;
    ghost var s := buf[..];
    buf[2] := Next(buf[2]);
    ghost var t := buf[..];
    assert t == s[2 := Next(s[2])];
    if buf[2] == 0x00 {
      buf[1] := Next(buf[1]);
      assert buf[..] == t[1 := Next(t[1])];
    }
  }

  method LengthenField(buf: array<bv8>)
    requires buf.Length > 2
    modifies buf
    ensures buf[..] == IncrementLength(IncrementLength(old(buf[..])))
  {
    hide IncrementLength;
    ghost var m := buf[..];
    for i := 0 to DETERMINANT_SIZE
      invariant i == 0 ==> buf[..] == m
      invariant i == 1 ==> buf[..] == IncrementLength(m)
      invariant i == 2 ==> buf[..] == IncrementLength(IncrementLength(m))
    {
      IncrementOnce(buf);
    }
  }

  method InsertDeterminant(buf: array<bv8>, count: nat) returns (newCount: nat)
    requires buf.Length >= 34 && count + DETERMINANT_SIZE <= buf.Length && count < UINT32
    modifies buf
    ensures buf[..] == Insert(old(buf[..]), count) && newCount == InsertedCount(old(buf[..]), count)
  {
    hide IncrementLength, Cast, And, Shr, Gap;
    newCount := count;
    if count < 1 {
      return;
    }
    var isFileData := And(buf[0], FILE_DATA_INDICATION_BIT) != 0;
    if !isFileData {
      return;
    }
    ghost var m := buf[..];
    HeaderSizeBound(m);
    var lengthOfEntityId := And(Shr(buf[3], 4), LENGTH_MASK) as nat + 1;
    var lengthOfSeqNumber := And(buf[3], LENGTH_MASK) as nat + 1;
    var h := 8 + 2 * lengthOfEntityId + lengthOfSeqNumber;
    var size: nat := (count + UINT32 - h) % UINT32;
    MakeGap(buf, h, count);
    buf[h + 1] := Cast(size);
    buf[h] := Cast(size / 0x100);
    assert buf[..] == Gap(m, h, count, DETERMINANT_SIZE)[h + 1 := Cast(size)][h := Cast(size / 0x100)];
    LengthenField(buf);
    newCount := count + DETERMINANT_SIZE;
  }
}

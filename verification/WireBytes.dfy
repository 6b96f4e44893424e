/** The bytes on the wire, written out as dataview/dataview.acn has them: PDUs, after section 5 of CCSDS
    727.0-B-5, messages to user, and fragmented octet strings. */
module WireBytes {
  import opened Bits
  import opened BitSequences
  import opened Integers
  import opened Pdus
  import opened Messages
  import opened OctetFragments
  import opened Framing
  import opened Wire

  // ---------- bytes ----------

  /** The low 16 and 32 bits of a number, most significant byte first. */
  function TwoBytes(v: nat): (r: seq<bv8>) ensures |r| == 2 { [Cast(v / 0x100), Cast(v)] }

  function FourBytes(v: nat): (r: seq<bv8>) ensures |r| == 4 { [Cast(v / 0x100_0000), Cast(v / 0x1_0000), Cast(v / 0x100), Cast(v)] }

  lemma OneByteBits(v: nat)
    ensures BitsOf([Cast(v)]) == NatBits(v, 8)
  {
    hide Cast, NatBits, LowBits;
    BitsOfByte(Cast(v));
    CastBits(v, 8);
  }

  lemma TwoByteBits(v: nat)
    ensures BitsOf(TwoBytes(v)) == NatBits(v, 16)
  {
    hide Cast, NatBits, BitsOf, Pow2;
    OneByteBits(v / 0x100); OneByteBits(v);
    BitsOfBytes([Cast(v / 0x100)], [Cast(v)]);
    NatBitsSplit(v, 8, 8);
    ShiftRightValue(v, 8);
    PowerValues();
    assert [Cast(v / 0x100)] + [Cast(v)] == TwoBytes(v);
  }

  lemma FourByteBits(v: nat)
    ensures BitsOf(FourBytes(v)) == NatBits(v, 32)
  {
    hide Cast, NatBits, BitsOf, Pow2;
    TwoByteBits(v / 0x1_0000); TwoByteBits(v);
    BitsOfBytes(TwoBytes(v / 0x1_0000), TwoBytes(v));
    NatBitsSplit(v, 16, 16);
    ShiftRightValue(v, 16);
    PowerValues();
    assert v / 0x1_0000 / 0x100 == v / 0x100_0000;
    assert TwoBytes(v / 0x1_0000) + TwoBytes(v) == FourBytes(v);
  }

  /** Two adjacent fields are one number. */
  lemma Join(v: nat, a: nat, w: nat, b: nat)
    requires w < Pow2(b)
    ensures NatBits(v, a) + NatBits(w, b) == NatBits(Pow2(b) * v + w, a + b)
  {
    hide NatBits, Pow2;
    var u := Pow2(b) * v + w;
    NatBitsSplit(u, a, b);
    ShiftRightValue(u, b);
    DivModUnique(u, Pow2(b), v, w);
    DivModUnique(w, Pow2(b), 0, w);
    NatBitsModulo(u, w, b);
  }

  lemma ZeroField(n: nat)
    ensures Zeros(n) == NatBits(0, n)
  {
    ZeroBits(n);
  }

  // ---------- PDUs ----------

  /** Version, PDU type, direction, mode and CRC flag; the length of the data field; the lengths of the ids;
      and source entity, transaction number and destination entity. */
  function HeaderBytes(h: Header, isData: bool, length: nat): seq<bv8>
    requires |h.source| > 0 && |h.seqNumber| > 0
  {
    [Cast(0x20 * h.version + (if isData then 0x10 else 0) + (if h.direction.TowardSender? then 8 else 0)
          + (if h.mode.Unacknowledged? then 4 else 0) + (if h.crcFlag.CrcPresent? then 2 else 0))]
    + TwoBytes(length) + [Cast(0x10 * (|h.source| - 1) + |h.seqNumber| - 1)] + h.source + h.seqNumber + h.destination
  }

  /** The numbers of the condition codes */
  function Code(c: ConditionCode): nat {
    match c
    case NoError => 0 case PositiveAckLimitReached => 1 case KeepAliveLimitReached => 2 case InvalidTransmissionMode => 3
    case FilestoreRejection => 4 case FileChecksumFailure => 5 case FileSizeError => 6 case NakLimitReached => 7
    case InactivityDetected => 8 case InvalidFileStructure => 9 case CheckLimitReached => 10 case UnsupportedChecksumType => 11
    case SuspendRequestReceived => 14 case CancelRequestReceived => 15
  }

  /** Directives begin with their code: 4 for EOF, 5 Finished, 6 Ack, 7 Metadata. File data has none; its
      length is there in an encoded PDU, and not on the wire. */
  function PayloadBytes(p: Payload): seq<bv8> {
    match p
    case Eof(condition, checksum, fileSize) => [4, Cast(0x10 * Code(condition))] + FourBytes(checksum) + FourBytes(fileSize)
    case Finished(condition, delivery, fileStatus) =>
      [5, Cast(0x10 * Code(condition) + 8 + (if delivery.DataIncomplete? then 4 else 0)
               + match fileStatus case DiscardedDeliberately => 0 case DiscardedFileRejection => 1 case RetainedSuccessfully => 2 case Unreported => 3)]
    case Ack(directive, subtype, condition, status) =>
      [6, Cast(directive), Cast((if subtype.AckFinished? then 0x10 else 0) + Code(condition)),
       Cast(0x10 * match status case Undefined => 0 case Active => 1 case Terminated => 2 case Unrecognized => 3)]
    case Metadata(closure, checksumType, size, sourceName, destinationName) =>
      [7, Cast((if closure.NotRequested? then 0x40 else 0) + (if checksumType.Modular? then 0 else 15))] + FourBytes(size)
      + [Cast(|sourceName|)] + sourceName + [Cast(|destinationName|)] + destinationName
    case FileData(offset, data) => FourBytes(offset) + TwoBytes(|data|) + data
  }

  lemma FlagByte(h: Header, isData: bool)
    requires h.version <= 7
    ensures FlagBits(h, isData)
         == NatBits(0x20 * h.version + (if isData then 0x10 else 0) + (if h.direction.TowardSender? then 8 else 0)
                    + (if h.mode.Unacknowledged? then 4 else 0) + (if h.crcFlag.CrcPresent? then 2 else 0), 8)
  {
    hide NatBits, Pow2, Zeros;
    PowerValues();
    var d, e, m, f := Flag(isData), Flag(h.direction.TowardSender?), Flag(h.mode.Unacknowledged?), Flag(h.crcFlag.CrcPresent?);
    ZeroField(1);
    Join(f, 1, 0, 1);
    Join(m, 1, 2 * f, 2);
    Join(e, 1, 4 * m + 2 * f, 3);
    Join(d, 1, 8 * e + 4 * m + 2 * f, 4);
    FiveBits();
    Join(h.version, 3, 16 * d + 8 * e + 4 * m + 2 * f, 5);
  }

  lemma FiveBits()
    ensures Pow2(5) == 32 && Pow2(6) == 64 && Pow2(7) == 128
  {}

  lemma LengthsByte(ids: nat, seqNumber: nat)
    requires 1 <= ids <= 8 && 1 <= seqNumber <= 8
    ensures LengthBits(ids, seqNumber) == NatBits(0x10 * (ids - 1) + seqNumber - 1, 8)
  {
    hide NatBits, Pow2, Zeros;
    PowerValues(); FiveBits();
    ZeroField(1);
    Join(0, 1, seqNumber - 1, 3);
    Join(ids - 1, 3, seqNumber - 1, 4);
    Join(0, 1, 0x10 * (ids - 1) + seqNumber - 1, 7);
  }

  lemma SameBits(a: seq<bv8>, x: seq<bool>, b: seq<bv8>, y: seq<bool>)
    requires BitsOf(a) == x && BitsOf(b) == y
    ensures BitsOf(a + b) == x + y
  {
    hide BitsOf;
    BitsOfBytes(a, b);
  }

  lemma HeaderBytesAre(h: Header, isData: bool, length: nat)
    requires h.version <= 7 && 1 <= |h.source| <= 8 && 1 <= |h.seqNumber| <= 8
    ensures BitsOf(HeaderBytes(h, isData, length)) == HeaderBits(h, isData, length)
  {
    hide NatBits, Cast, BitsOf, FlagBits, LengthBits, TwoBytes;
    var flags := 0x20 * h.version + (if isData then 0x10 else 0) + (if h.direction.TowardSender? then 8 else 0)
               + (if h.mode.Unacknowledged? then 4 else 0) + (if h.crcFlag.CrcPresent? then 2 else 0);
    var lengths := 0x10 * (|h.source| - 1) + |h.seqNumber| - 1;
    FlagByte(h, isData); OneByteBits(flags);
    TwoByteBits(length);
    LengthsByte(|h.source|, |h.seqNumber|); OneByteBits(lengths);
    BitsOfBytes([Cast(flags)], TwoBytes(length));
    BitsOfBytes([Cast(flags)] + TwoBytes(length), [Cast(lengths)]);
    BitsOfBytes([Cast(flags)] + TwoBytes(length) + [Cast(lengths)], h.source);
    BitsOfBytes([Cast(flags)] + TwoBytes(length) + [Cast(lengths)] + h.source, h.seqNumber);
    BitsOfBytes([Cast(flags)] + TwoBytes(length) + [Cast(lengths)] + h.source + h.seqNumber, h.destination);
    Reassociate(NatBits(flags, 8), NatBits(length, 16), NatBits(lengths, 8), BitsOf(h.source), BitsOf(h.seqNumber), BitsOf(h.destination));
  }

  lemma Reassociate<T>(a: seq<T>, b: seq<T>, c: seq<T>, d: seq<T>, e: seq<T>, f: seq<T>)
    ensures a + b + c + d + e + f == a + (b + (c + (d + (e + f))))
  {}

  lemma SmallBytes()
    ensures Cast(4) == 4 && Cast(5) == 5 && Cast(6) == 6 && Cast(7) == 7
  {
    hide Cast;
    CastValue(4); CastValue(5); CastValue(6); CastValue(7);
  }

  lemma {:induction false} NoPadding(x: seq<bool>)
    requires |x| % 8 == 0
    ensures PadToByte(x) == x
  {}

  lemma EofBytes(p: Payload)
    requires p.Eof?
    ensures BitsOf(PayloadBytes(p)) == PadToByte(PayloadBits(p))
  {
    hide NatBits, Cast, BitsOf, Pow2, FourBytes, Zeros;
    PowerValues(); SmallBytes();
    var b := 0x10 * Code(p.condition);
    ZeroField(4); Join(ConditionValue(p.condition), 4, 0, 4);
    OneByteBits(4); OneByteBits(b); FourByteBits(p.checksum); FourByteBits(p.fileSize);
    assert [4] + [Cast(b)] == [4, Cast(b)];
    var x0, x1, x2, x3 := NatBits(4, 8), NatBits(b, 8), NatBits(p.checksum, 32), NatBits(p.fileSize, 32);
    SameBits([4], x0, [Cast(b)], x1);
    SameBits([4, Cast(b)], x0 + x1, FourBytes(p.checksum), x2);
    SameBits([4, Cast(b)] + FourBytes(p.checksum), x0 + x1 + x2, FourBytes(p.fileSize), x3);
    EofFields(x0, NatBits(ConditionValue(p.condition), 4), Zeros(4), x2, x3);
    NoPadding(PayloadBits(p));
  }

  lemma EofFields<T>(a: seq<T>, b: seq<T>, c: seq<T>, d: seq<T>, e: seq<T>)
    ensures a + (b + (c + (d + e))) == a + (b + c) + d + e
  {}

  lemma FinishedBytes(p: Payload)
    requires p.Finished?
    ensures BitsOf(PayloadBytes(p)) == PadToByte(PayloadBits(p))
  {
    hide NatBits, Cast, BitsOf, Pow2;
    PowerValues(); SmallBytes();
    var d, f := Flag(p.delivery.DataIncomplete?), FileStatusValue(p.fileStatus);
    var b := 0x10 * Code(p.condition) + 8 + 4 * d + f;
    OneBit();
    Join(d, 1, f, 2); Join(1, 1, 4 * d + f, 3); Join(ConditionValue(p.condition), 4, 8 + 4 * d + f, 4);
    OneByteBits(5); OneByteBits(b);
    BitsOfBytes([5], [Cast(b)]);
    assert [5] + [Cast(b)] == PayloadBytes(p);
    NoPadding(PayloadBits(p));
  }

  lemma OneBit()
    ensures NatBits(1, 1) == [true]
  {}

  lemma AckBytes(p: Payload)
    requires p.Ack?
    ensures BitsOf(PayloadBytes(p)) == PadToByte(PayloadBits(p))
  {
    hide NatBits, Cast, BitsOf, Pow2, Zeros;
    PowerValues(); SmallBytes(); FiveBits();
    var s, f, c := Flag(p.subtype.AckFinished?), AckStatusValue(p.status), ConditionValue(p.condition);
    ZeroField(2); ZeroField(4);
    Join(s, 4, c, 4);
    Join(f, 2, 0, 4); Join(0, 2, 0x10 * f, 6);
    OneByteBits(6); OneByteBits(p.directive); OneByteBits(0x10 * s + c); OneByteBits(0x10 * f);
    BitsOfBytes([6], [Cast(p.directive)]); BitsOfBytes([6] + [Cast(p.directive)], [Cast(0x10 * s + c)]);
    BitsOfBytes([6] + [Cast(p.directive)] + [Cast(0x10 * s + c)], [Cast(0x10 * f)]);
    assert [6] + [Cast(p.directive)] + [Cast(0x10 * s + c)] + [Cast(0x10 * f)] == PayloadBytes(p);
    AckFields(NatBits(6, 8), NatBits(p.directive, 8), NatBits(s, 4), NatBits(c, 4), Zeros(2), NatBits(f, 2), Zeros(4));
  }

  lemma AckFields<T>(a: seq<T>, b: seq<T>, c: seq<T>, d: seq<T>, e: seq<T>, f: seq<T>, g: seq<T>)
    ensures (a + (b + (c + (d + (e + f))))) + g == a + b + (c + d) + (e + (f + g))
  {}

  lemma NameBytes(name: seq<bv8>)
    ensures BitsOf([Cast(|name|)] + name) == NatBits(|name|, 8) + BitsOf(name)
  {
    hide NatBits, Cast, BitsOf;
    OneByteBits(|name|);
    BitsOfBytes([Cast(|name|)], name);
  }

  lemma MetadataStart(f: nat, t: nat, size: nat)
    requires f <= 1 && t < 16
    ensures BitsOf([7, Cast(0x40 * f + t)] + FourBytes(size))
         == NatBits(7, 8) + (Zeros(1) + (NatBits(f, 1) + (Zeros(2) + (NatBits(t, 4) + NatBits(size, 32)))))
  {
    hide NatBits, Cast, BitsOf, Pow2, Zeros, FourBytes;
    PowerValues(); SmallBytes(); FiveBits();
    ZeroField(1); ZeroField(2);
    Join(0, 2, t, 4); Join(f, 1, t, 6); Join(0, 1, 0x40 * f + t, 7);
    OneByteBits(7); OneByteBits(0x40 * f + t); FourByteBits(size);
    assert [7] + [Cast(0x40 * f + t)] == [7, Cast(0x40 * f + t)];
    SameBits([7], NatBits(7, 8), [Cast(0x40 * f + t)], NatBits(0x40 * f + t, 8));
    SameBits([7, Cast(0x40 * f + t)], NatBits(7, 8) + NatBits(0x40 * f + t, 8), FourBytes(size), NatBits(size, 32));
    StartFields(NatBits(7, 8), Zeros(1), NatBits(f, 1), Zeros(2), NatBits(t, 4), NatBits(size, 32));
  }

  lemma StartFields<T>(a: seq<T>, b: seq<T>, c: seq<T>, d: seq<T>, e: seq<T>, f: seq<T>)
    ensures a + (b + (c + (d + (e + f)))) == a + (b + (c + (d + e))) + f
  {}

  lemma MetadataBytes(p: Payload)
    requires p.Metadata? && |p.sourceName| <= 128 && |p.destinationName| <= 128
    ensures BitsOf(PayloadBytes(p)) == PadToByte(PayloadBits(p))
  {
    hide NatBits, Cast, BitsOf, Zeros, FourBytes;
    var f, t := Flag(p.closure.NotRequested?), if p.checksumType.Modular? then 0 else 15;
    var s0, s1, s2 := [7, Cast(0x40 * f + t)] + FourBytes(p.size), [Cast(|p.sourceName|)] + p.sourceName, [Cast(|p.destinationName|)] + p.destinationName;
    MetadataStart(f, t, p.size);
    NameBytes(p.sourceName); NameBytes(p.destinationName);
    BitsOfBytes(s0, s1); BitsOfBytes(s0 + s1, s2);
    assert s0 + s1 + s2 == PayloadBytes(p);
    MetadataFields(NatBits(7, 8), Zeros(1), NatBits(f, 1), Zeros(2), NatBits(t, 4), NatBits(p.size, 32),
                   NatBits(|p.sourceName|, 8), BitsOf(p.sourceName), NatBits(|p.destinationName|, 8), BitsOf(p.destinationName));
    NoPadding(PayloadBits(p));
  }

  lemma MetadataFields<T>(a: seq<T>, b: seq<T>, c: seq<T>, d: seq<T>, e: seq<T>, f: seq<T>, g: seq<T>, h: seq<T>, i: seq<T>, j: seq<T>)
    ensures a + (b + (c + (d + (e + (f + (g + (h + (i + j)))))))) == a + (b + (c + (d + (e + f)))) + (g + h) + (i + j)
  {}

  lemma FileDataBytes(p: Payload)
    requires p.FileData?
    ensures BitsOf(PayloadBytes(p)) == PadToByte(PayloadBits(p))
  {
    hide NatBits, Cast, BitsOf, TwoBytes, FourBytes;
    FourByteBits(p.offset); TwoByteBits(|p.data|);
    BitsOfBytes(FourBytes(p.offset), TwoBytes(|p.data|)); BitsOfBytes(FourBytes(p.offset) + TwoBytes(|p.data|), p.data);
    NoPadding(PayloadBits(p));
  }

  lemma PayloadBytesAre(p: Payload)
    requires ValidPayload(p)
    ensures BitsOf(PayloadBytes(p)) == PadToByte(PayloadBits(p)) && |PayloadBytes(p)| == PayloadLength(p)
  {
    hide BitsOf, PayloadBits, PayloadBytes;
    match p
    case Eof(_, _, _) => EofBytes(p);
    case Finished(_, _, _) => FinishedBytes(p);
    case Ack(_, _, _, _) => AckBytes(p);
    case Metadata(_, _, _, _, _) => MetadataBytes(p);
    case FileData(_, _) => FileDataBytes(p);
  }

  /** The bytes of an encoded PDU, of whatever kind. */
  lemma PduBytesAre(p: Pdu)
    requires Encodable(p)
    ensures EncodedBytes(p) == HeaderBytes(p.header, p.payload.FileData?, |PayloadBytes(p.payload)|) + PayloadBytes(p.payload)
  {
    hide BitsOf, HeaderBits, PayloadBits, PadToByte, EncodedBytes, HeaderBytes, PayloadBytes, ValidPayload;
    var h := HeaderBytes(p.header, p.payload.FileData?, |PayloadBytes(p.payload)|);
    PayloadBytesAre(p.payload);
    HeaderBytesAre(p.header, p.payload.FileData?, |PayloadBytes(p.payload)|);
    BitsOfBytes(h, PayloadBytes(p.payload));
    EncodedBytesBits(p);
    BitsOfIsInjective(EncodedBytes(p), h + PayloadBytes(p.payload));
  }

  /** The bytes on the wire: of file data, the offset and the data follow the header, which counts them. */
  lemma FrameBytes(p: Pdu)
    requires Encodable(p)
    ensures Frame(p) == if p.payload.FileData?
                        then HeaderBytes(p.header, true, 4 + |p.payload.data|) + FourBytes(p.payload.offset) + p.payload.data
                        else HeaderBytes(p.header, false, |PayloadBytes(p.payload)|) + PayloadBytes(p.payload)
  {
    hide EncodedBytes, HeaderBytes, PayloadBytes, ValidPayload, Strip;
    PduBytesAre(p);
    FrameIs(p);
    if p.payload.FileData? {
      DataFits(p);
      StrippedBytes(p.header, p.payload.offset, p.payload.data);
      DataPayload(p.payload);
    }
  }

  lemma FrameIs(p: Pdu)
    requires Encodable(p)
    ensures |EncodedBytes(p)| >= 5 + if p.payload.FileData? then |p.payload.data| else 0
    ensures Frame(p) == if p.payload.FileData? then Strip(EncodedBytes(p), |p.payload.data|) else EncodedBytes(p)
  {
    hide EncodedBytes, Strip, ValidPayload;
    FrameSize(p);
  }

  lemma DataFits(p: Pdu)
    requires Encodable(p) && p.payload.FileData?
    ensures |p.payload.data| <= 4096
  {}

  lemma DataPayload(p: Payload)
    requires p.FileData?
    ensures PayloadBytes(p) == FourBytes(p.offset) + TwoBytes(|p.data|) + p.data
  {}

  /** Cutting out the two length bytes leaves the header with a data field two bytes shorter. */
  lemma StrippedBytes(h: Header, offset: nat, data: seq<bv8>)
    requires |h.source| > 0 && |h.seqNumber| > 0 && |data| <= 4096
    ensures Strip(HeaderBytes(h, true, 6 + |data|) + (FourBytes(offset) + TwoBytes(|data|) + data), |data|)
         == HeaderBytes(h, true, 4 + |data|) + FourBytes(offset) + data
  {
    hide Cast, DecrementLength;
    var a, b := HeaderBytes(h, true, 6 + |data|) + FourBytes(offset), HeaderBytes(h, true, 4 + |data|) + FourBytes(offset);
    var s := HeaderBytes(h, true, 6 + |data|) + (FourBytes(offset) + TwoBytes(|data|) + data);
    var cut := |s| - |data| - DETERMINANT_SIZE;
    assert s[..cut] == a && s[cut + DETERMINANT_SIZE..] == data;
    Lessened(a + data, b + data, 6 + |data|);
  }

  lemma Lessened(s: seq<bv8>, t: seq<bv8>, n: nat)
    requires |s| == |t| > 2 && 2 <= n < 0x1_0000
    requires s[1] == Cast(n / 0x100) && s[2] == Cast(n) && t[1] == Cast((n - 2) / 0x100) && t[2] == Cast(n - 2)
    requires forall i | 0 <= i < |s| && i != 1 && i != 2 :: s[i] == t[i]
    ensures DecrementLength(DecrementLength(s)) == t
  {
    hide Cast, DecrementLength, FieldLength;
    LengthValue(s, n); LengthValue(t, n - 2);
    var u := DecrementLength(s);
    var v := DecrementLength(u);
    DecrementLengthValue(s); DecrementLengthValue(u);
    TwoLess(n);
    OthersStay(s); OthersStay(u);
    SameLengths(v, t);
    assert forall i | 0 <= i < |t| :: v[i] == t[i];
  }

  function Value(b: bv8): nat { b as nat }

  lemma FieldIs(s: seq<bv8>)
    requires |s| > 2
    ensures FieldLength(s) == Value(s[1]) * 0x100 + Value(s[2])
  {}

  lemma SameLengths(s: seq<bv8>, t: seq<bv8>)
    requires |s| > 2 && |t| > 2 && FieldLength(s) == FieldLength(t)
    ensures s[1] == t[1] && s[2] == t[2]
  {
    hide FieldLength, Value;
    FieldIs(s); FieldIs(t);
    ByteBound(s[2]); ByteBound(t[2]);
    TwoDigits(Value(s[1]), Value(s[2]), Value(t[1]), Value(t[2]));
    SameByte(s[1], t[1]); SameByte(s[2], t[2]);
  }

  lemma ByteBound(b: bv8)
    ensures Value(b) < 0x100
  {}

  lemma CastIs(v: nat)
    ensures Value(Cast(v)) == v % 0x100
  {
    hide Cast;
    CastValue(v);
  }

  lemma TwoDigits(a: nat, b: nat, c: nat, d: nat)
    requires a * 0x100 + b == c * 0x100 + d && b < 0x100 && d < 0x100
    ensures a == c && b == d
  {}

  lemma TwoLess(n: nat)
    requires 2 <= n < 0x1_0000
    ensures ((n + 0xFFFF) % 0x1_0000 + 0xFFFF) % 0x1_0000 == n - 2
  {}

  lemma LengthValue(s: seq<bv8>, n: nat)
    requires |s| > 2 && n < 0x1_0000 && s[1] == Cast(n / 0x100) && s[2] == Cast(n)
    ensures FieldLength(s) == n
  {
    hide Cast, FieldLength, Value;
    FieldIs(s);
    CastIs(n / 0x100); CastIs(n);
  }

  lemma OthersStay(s: seq<bv8>)
    requires |s| > 2
    ensures forall i | 0 <= i < |s| && i != 1 && i != 2 :: DecrementLength(s)[i] == s[i]
  {
    hide Prev;
  }

  lemma SameByte(a: bv8, b: bv8)
    ensures Value(a) == Value(b) ==> a == b
  {}

  // ---------- messages to user ----------

  function NamesBytes(directory: seq<bv8>, file: seq<bv8>): seq<bv8> {
    [Cast(|directory|)] + directory + ([Cast(|file|)] + file)
  }

  /** "cfdp", and the type of the message: 10 for an originating id, 16 for a request, 17 for a response. */
  function MessageBytes(m: Message): seq<bv8>
    requires Fits(m)
  {
    match m
    case OriginatingId(source, seqNumber) => [0x63, 0x66, 0x64, 0x70, 10] + ([Cast(0x10 * (|source| - 1) + |seqNumber| - 1)] + (source + seqNumber))
    case ListingRequest(directory, file) => [0x63, 0x66, 0x64, 0x70, 16] + NamesBytes(directory, file)
    case ListingResponse(successful, directory, file) =>
      [0x63, 0x66, 0x64, 0x70, 17] + ([if successful then 0 else 0x80] + NamesBytes(directory, file))
  }

  /** Tag 2, the length, and the message */
  function TlvBytes(m: Message): seq<bv8>
    requires Fits(m)
  {
    [2, Cast(|MessageBytes(m)|)] + MessageBytes(m)
  }

  lemma KindBytes(kind: bv8)
    ensures BitsOf([0x63, 0x66, 0x64, 0x70, kind]) == BitsOf(IDENTIFIER) + BitsOf([kind])
  {
    hide BitsOf;
    BitsOfBytes(IDENTIFIER, [kind]);
    assert IDENTIFIER + [kind] == [0x63, 0x66, 0x64, 0x70, kind];
  }

  lemma ByteIs(b: bv8, v: nat)
    requires Cast(v) == b
    ensures BitsOf([b]) == NatBits(v, 8)
  {
    OneByteBits(v);
  }

  lemma Numbers()
    ensures Cast(0) == 0 && Cast(2) == 2 && Cast(10) == 10 && Cast(16) == 16 && Cast(17) == 17 && Cast(0x80) == 0x80
  {
    hide Cast;
    CastValue(0); CastValue(2); CastValue(10); CastValue(16); CastValue(17); CastValue(0x80);
  }

  lemma FragmentNumbers()
    ensures Cast(0xC1) == 0xC1 && Cast(0xC2) == 0xC2 && Cast(0xC3) == 0xC3 && Cast(0xC4) == 0xC4
  {
    hide Cast;
    CastValue(0xC1); CastValue(0xC2); CastValue(0xC3); CastValue(0xC4);
  }

  lemma NamesBytesAre(directory: seq<bv8>, file: seq<bv8>)
    ensures BitsOf(NamesBytes(directory, file)) == NamesBits(directory, file)
  {
    hide NatBits, Cast, BitsOf;
    NameBytes(directory); NameBytes(file);
    BitsOfBytes([Cast(|directory|)] + directory, [Cast(|file|)] + file);
  }

  lemma ResponseCode(successful: bool)
    ensures BitsOf([if successful then 0 else 0x80]) == NatBits(Flag(!successful), 1) + Zeros(7)
  {
    hide NatBits, Cast, BitsOf, Pow2;
    Numbers(); FiveBits();
    ZeroField(7);
    Join(Flag(!successful), 1, 0, 7);
    ByteIs(if successful then 0 else 0x80, 0x80 * Flag(!successful));
  }

  /** A message of a kind, given its body */
  lemma OfKind(kind: bv8, v: nat, body: seq<bv8>, x: seq<bool>)
    requires Cast(v) == kind && BitsOf(body) == x
    ensures BitsOf([0x63, 0x66, 0x64, 0x70, kind] + body) == BitsOf(IDENTIFIER) + (NatBits(v, 8) + x)
  {
    hide NatBits, Cast, BitsOf;
    KindBytes(kind); ByteIs(kind, v);
    BitsOfBytes([0x63, 0x66, 0x64, 0x70, kind], body);
  }

  lemma IdBytes(source: seq<bv8>, seqNumber: seq<bv8>)
    requires 1 <= |source| <= 7 && 1 <= |seqNumber| <= 7
    ensures BitsOf([Cast(0x10 * (|source| - 1) + |seqNumber| - 1)] + (source + seqNumber))
         == LengthBits(|source|, |seqNumber|) + (BitsOf(source) + BitsOf(seqNumber))
  {
    hide NatBits, Cast, BitsOf, LengthBits;
    var b := 0x10 * (|source| - 1) + |seqNumber| - 1;
    LengthsByte(|source|, |seqNumber|); OneByteBits(b);
    BitsOfBytes(source, seqNumber);
    BitsOfBytes([Cast(b)], source + seqNumber);
  }

  lemma ResponseBytes(successful: bool, directory: seq<bv8>, file: seq<bv8>)
    ensures BitsOf([if successful then 0 else 0x80] + NamesBytes(directory, file))
         == NatBits(Flag(!successful), 1) + (Zeros(7) + NamesBits(directory, file))
  {
    hide NatBits, BitsOf, NamesBits, NamesBytes, Zeros;
    ResponseCode(successful);
    NamesBytesAre(directory, file);
    BitsOfBytes([if successful then 0 else 0x80], NamesBytes(directory, file));
  }

  lemma BodyBytesAre(m: Message)
    requires Fits(m)
    ensures BitsOf(MessageBytes(m)) == ValueBits(m)
  {
    hide NatBits, Cast, BitsOf, NamesBits, NamesBytes, LengthBits, Zeros;
    Numbers();
    match m
    case OriginatingId(source, seqNumber) =>
      IdBytes(source, seqNumber);
      OfKind(10, 10, [Cast(0x10 * (|source| - 1) + |seqNumber| - 1)] + (source + seqNumber), MessageBits(m));
    case ListingRequest(directory, file) =>
      NamesBytesAre(directory, file);
      OfKind(16, 16, NamesBytes(directory, file), MessageBits(m));
    case ListingResponse(successful, directory, file) =>
      ResponseBytes(successful, directory, file);
      OfKind(17, 17, [if successful then 0 else 0x80] + NamesBytes(directory, file), MessageBits(m));
  }

  /** The bytes of a message to user behind a Metadata PDU. */
  lemma TlvBytesAre(m: Message)
    requires Fits(m)
    ensures BitsOf(TlvBytes(m)) == TlvBits(m) && |MessageBytes(m)| <= 248
  {
    hide NatBits, Cast, BitsOf, MessageBytes, ValueBits;
    Numbers();
    BodyBytesAre(m);
    var n := |MessageBytes(m)|;
    ByteIs(2, 2); OneByteBits(n);
    BitsOfBytes([2], [Cast(n)]);
    assert [2] + [Cast(n)] == [2, Cast(n)];
    BitsOfBytes([2, Cast(n)], MessageBytes(m));
  }

  // ---------- fragments ----------

  /** A length below 128 takes one byte, and one below 16K two, with the first bit set. A longer string
      starts with 64K, 48K, 32K or 16K octets behind the byte C4, C3, C2 or C1. */
  function FragmentBytes(arr: seq<bv8>): seq<bv8> {
    var n := |arr|;
    if n < 0x80 then [Cast(n)] + arr
    else if n < 0x4000 then [Cast(0x80 + n / 0x100), Cast(n)] + arr
    else if n < 0x8000 then [0xC1] + arr[..0x4000] + FragmentBytes(arr[0x4000..])
    else if n < 0xC000 then [0xC2] + arr[..0x8000] + FragmentBytes(arr[0x8000..])
    else if n < 0x10000 then [0xC3] + arr[..0xC000] + FragmentBytes(arr[0xC000..])
    else [0xC4] + arr[..0x10000] + FragmentBytes(arr[0x10000..])
  }

  lemma {:induction false} FragmentBytesAre(arr: seq<bv8>)
    ensures BitsOf(FragmentBytes(arr)) == FragmentBits(arr)
    decreases |arr|
  {
    hide NatBits, Cast, BitsOf;
    var n := |arr|;
    if n < 0x80 {
      NameBytes(arr);
    } else if n < BLOCK {
      TwoByteLength(n);
      OneByteBits(0x80 + n / 0x100); OneByteBits(n);
      LowByte(n);
      BitsOfBytes([Cast(0x80 + n / 0x100)], [Cast(n)]);
      assert [Cast(0x80 + n / 0x100)] + [Cast(n)] == [Cast(0x80 + n / 0x100), Cast(n)];
      BitsOfBytes([Cast(0x80 + n / 0x100), Cast(n)], arr);
    } else {
      var k := BlockUnits(n);
      FragmentBytesAre(arr[BLOCK * k..]);
      BlockBytes(k, arr[..BLOCK * k], FragmentBytes(arr[BLOCK * k..]), FragmentBits(arr[BLOCK * k..]));
    }
  }

  lemma BlockBytes(k: nat, block: seq<bv8>, rest: seq<bv8>, x: seq<bool>)
    requires 1 <= k <= 4 && BitsOf(rest) == x
    ensures var b: bv8 := if k == 4 then 0xC4 else if k == 3 then 0xC3 else if k == 2 then 0xC2 else 0xC1;
      BitsOf([b] + block + rest) == NatBits(0xC0 + k, 8) + (BitsOf(block) + x)
  {
    hide NatBits, Cast, BitsOf;
    var b: bv8 := if k == 4 then 0xC4 else if k == 3 then 0xC3 else if k == 2 then 0xC2 else 0xC1;
    FragmentNumbers();
    ByteIs(b, 0xC0 + k);
    BitsOfBytes([b], block);
    BitsOfBytes([b] + block, rest);
  }

  lemma LowByte(n: nat)
    ensures NatBits(n, 8) == NatBits(n % 0x100, 8)
  {
    hide NatBits, Pow2;
    PowerValues();
    NatBitsModulo(n, n % 0x100, 8);
  }
}

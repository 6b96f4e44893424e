/** CFDP protocol data units and their bit layout (dataview/dataview.acn): the encoding as a bit
    sequence, the decoding as a parser of bit sequences, and the round trip between them. */
module Pdus {
  import opened Bits
  import opened BitSequences
  import opened Integers

  datatype Direction = TowardReceiver | TowardSender
  datatype TransmissionMode = Acknowledged | Unacknowledged
  datatype CrcFlag = CrcNotPresent | CrcPresent
  datatype ClosureRequested = Requested | NotRequested
  datatype ChecksumType = Modular | NoChecksum
  datatype DeliveryCode = DataComplete | DataIncomplete
  datatype FileStatus = DiscardedDeliberately | DiscardedFileRejection | RetainedSuccessfully | Unreported
  datatype AckSubtype = AckOthers | AckFinished
  datatype AckStatus = Undefined | Active | Terminated | Unrecognized
  datatype ConditionCode =
    | NoError | PositiveAckLimitReached | KeepAliveLimitReached | InvalidTransmissionMode
    | FilestoreRejection | FileChecksumFailure | FileSizeError | NakLimitReached
    | InactivityDetected | InvalidFileStructure | CheckLimitReached | UnsupportedChecksumType
    | SuspendRequestReceived | CancelRequestReceived

  datatype Header = Header(
    version: nat, direction: Direction, mode: TransmissionMode, crcFlag: CrcFlag,
    source: seq<bv8>, seqNumber: seq<bv8>, destination: seq<bv8>)

  datatype Payload =
    | Eof(condition: ConditionCode, checksum: nat, fileSize: nat)
    | Finished(condition: ConditionCode, delivery: DeliveryCode, fileStatus: FileStatus)
    | Ack(directive: nat, subtype: AckSubtype, condition: ConditionCode, status: AckStatus)
    | Metadata(closure: ClosureRequested, checksumType: ChecksumType, size: nat, sourceName: seq<bv8>, destinationName: seq<bv8>)
    | FileData(offset: nat, data: seq<bv8>)

  datatype Pdu = Pdu(header: Header, payload: Payload)

  const PAYLOAD_BYTES := 4103  // cfdpPayloadData_REQUIRED_BYTES_FOR_ACN_ENCODING
  const PDU_BYTES := 4127      // cfdpCfdpPDU_REQUIRED_BYTES_FOR_ACN_ENCODING

  predicate IsConstraintValid(p: Pdu) {
    && p.header.version <= 7
    && 1 <= |p.header.source| <= 7 && 1 <= |p.header.seqNumber| <= 7 && 1 <= |p.header.destination| <= 7
    && ValidPayload(p.payload)
  }

  predicate ValidPayload(p: Payload) {
    match p
    case Eof(_, checksum, fileSize) => checksum < UINT32 && fileSize < UINT32
    case Finished(_, _, _) => true
    case Ack(directive, _, _, _) => directive < 0x100
    case Metadata(_, _, size, sourceName, destinationName) => size < UINT32 && |sourceName| <= 128 && |destinationName| <= 128
    case FileData(offset, data) => offset < UINT32 && |data| <= 4096
  }

  /** One length field serves both entity ids. */
  predicate Encodable(p: Pdu) {
    IsConstraintValid(p) && |p.header.source| == |p.header.destination|
  }

  function ConditionValue(c: ConditionCode): nat {
    match c
    case NoError => 0
    case PositiveAckLimitReached => 1
    case KeepAliveLimitReached => 2
    case InvalidTransmissionMode => 3
    case FilestoreRejection => 4
    case FileChecksumFailure => 5
    case FileSizeError => 6
    case NakLimitReached => 7
    case InactivityDetected => 8
    case InvalidFileStructure => 9
    case CheckLimitReached => 10
    case UnsupportedChecksumType => 11
    case SuspendRequestReceived => 14
    case CancelRequestReceived => 15
  }

  datatype Option<+T> = None | Some(value: T)

  function ConditionOf(v: nat): Option<ConditionCode> {
    if v == 0 then Some(NoError)
    else if v == 1 then Some(PositiveAckLimitReached)
    else if v == 2 then Some(KeepAliveLimitReached)
    else if v == 3 then Some(InvalidTransmissionMode)
    else if v == 4 then Some(FilestoreRejection)
    else if v == 5 then Some(FileChecksumFailure)
    else if v == 6 then Some(FileSizeError)
    else if v == 7 then Some(NakLimitReached)
    else if v == 8 then Some(InactivityDetected)
    else if v == 9 then Some(InvalidFileStructure)
    else if v == 10 then Some(CheckLimitReached)
    else if v == 11 then Some(UnsupportedChecksumType)
    else if v == 14 then Some(SuspendRequestReceived)
    else if v == 15 then Some(CancelRequestReceived)
    else None
  }

  function Flag(b: bool): nat { if b then 1 else 0 }

  function FileStatusValue(s: FileStatus): nat {
    match s case DiscardedDeliberately => 0 case DiscardedFileRejection => 1 case RetainedSuccessfully => 2 case Unreported => 3
  }

  function FileStatusOf(v: nat): FileStatus {
    if v == 0 then DiscardedDeliberately else if v == 1 then DiscardedFileRejection else if v == 2 then RetainedSuccessfully else Unreported
  }

  function AckStatusValue(s: AckStatus): nat {
    match s case Undefined => 0 case Active => 1 case Terminated => 2 case Unrecognized => 3
  }

  function AckStatusOf(v: nat): AckStatus {
    if v == 0 then Undefined else if v == 1 then Active else if v == 2 then Terminated else Unrecognized
  }

  // ---------- layout ----------

  ghost function FlagBits(h: Header, isData: bool): (r: seq<bool>)
    ensures |r| == 8
  {
    NatBits(h.version, 3) + (NatBits(Flag(isData), 1) + (NatBits(Flag(h.direction.TowardSender?), 1)
      + (NatBits(Flag(h.mode.Unacknowledged?), 1) + (NatBits(Flag(h.crcFlag.CrcPresent?), 1) + Zeros(1)))))
  }

  ghost function LengthBits(ids: nat, seqNumber: nat): (r: seq<bool>)
    requires ids > 0 && seqNumber > 0
    ensures |r| == 8
  {
    Zeros(1) + (NatBits(ids - 1, 3) + (Zeros(1) + NatBits(seqNumber - 1, 3)))
  }

  ghost function HeaderBits(h: Header, isData: bool, dataFieldLength: nat): (r: seq<bool>)
    requires |h.source| > 0 && |h.seqNumber| > 0
    ensures |r| == 32 + 8 * (|h.source| + |h.seqNumber| + |h.destination|)
  {
    FlagBits(h, isData) + (NatBits(dataFieldLength, 16) + (LengthBits(|h.source|, |h.seqNumber|)
      + (BitsOf(h.source) + (BitsOf(h.seqNumber) + BitsOf(h.destination)))))
  }

  ghost function DirectiveCode(p: Payload): nat
    requires !p.FileData?
  {
    match p case Eof(_, _, _) => 4 case Finished(_, _, _) => 5 case Ack(_, _, _, _) => 6 case Metadata(_, _, _, _, _) => 7
  }

  ghost function BodyBits(p: Payload): seq<bool> {
    match p
    case Eof(condition, checksum, fileSize) =>
      NatBits(ConditionValue(condition), 4) + (Zeros(4) + (NatBits(checksum, 32) + NatBits(fileSize, 32)))
    case Finished(condition, delivery, fileStatus) =>
      NatBits(ConditionValue(condition), 4) + ([true] + (NatBits(Flag(delivery.DataIncomplete?), 1) + NatBits(FileStatusValue(fileStatus), 2)))
    case Ack(directive, subtype, condition, status) =>
      NatBits(directive, 8) + (NatBits(Flag(subtype.AckFinished?), 4) + (NatBits(ConditionValue(condition), 4)
        + (Zeros(2) + NatBits(AckStatusValue(status), 2))))
    case Metadata(closure, checksumType, size, sourceName, destinationName) =>
      Zeros(1) + (NatBits(Flag(closure.NotRequested?), 1) + (Zeros(2) + (NatBits(if checksumType.Modular? then 0 else 15, 4)
        + (NatBits(size, 32) + (NatBits(|sourceName|, 8) + (BitsOf(sourceName)
        + (NatBits(|destinationName|, 8) + BitsOf(destinationName))))))))
    case FileData(offset, data) =>
      NatBits(offset, 32) + (NatBits(|data|, 16) + BitsOf(data))
  }

  ghost function PayloadBits(p: Payload): seq<bool> {
    if p.FileData? then BodyBits(p) else NatBits(DirectiveCode(p), 8) + BodyBits(p)
  }

  /** Bytes the payload takes; a last partial byte counts as one. */
  ghost function PayloadLength(p: Payload): nat {
    (|PayloadBits(p)| + 7) / 8
  }

  ghost function PduBits(p: Pdu): seq<bool>
    requires |p.header.source| > 0 && |p.header.seqNumber| > 0
  {
    HeaderBits(p.header, p.payload.FileData?, PayloadLength(p.payload)) + PadToByte(PayloadBits(p.payload))
  }

  ghost function PadToByte(x: seq<bool>): (r: seq<bool>)
    ensures |r| == 8 * ((|x| + 7) / 8)
  {
    x + Zeros(8 * ((|x| + 7) / 8) - |x|)
  }

  // ---------- parsing ----------

  datatype Read<+T> = Failed | Got(value: T, pos: nat) {
    predicate IsFailure() { Failed? }

    function PropagateFailure<U>(): Read<U>
      requires Failed?
    {
      Failed
    }

    function Extract(): (T, nat)
      requires Got?
    {
      (value, pos)
    }
  }

  ghost function GetNat(x: seq<bool>, pos: nat, n: nat): Read<nat> {
    if pos + n <= |x| then Got(NatAt(x, pos, n), pos + n) else Failed
  }

  ghost function BytesAt(x: seq<bool>, pos: nat, n: nat): (r: seq<bv8>)
    requires pos + 8 * n <= |x|
    ensures |r| == n
  {
    seq(n, i requires 0 <= i < n => Cast(NatAt(x, pos + 8 * i, 8)))
  }

  ghost function GetBytes(x: seq<bool>, pos: nat, n: nat): Read<seq<bv8>> {
    if pos + 8 * n <= |x| then Got(BytesAt(x, pos, n), pos + 8 * n) else Failed
  }

  /** A fixed bit pattern; anything else fails. */
  ghost function GetPattern(x: seq<bool>, pos: nat, pattern: seq<bool>): Read<()> {
    if pos + |pattern| <= |x| && x[pos..pos + |pattern|] == pattern then Got((), pos + |pattern|) else Failed
  }

  ghost function GetCondition(x: seq<bool>, pos: nat): Read<ConditionCode> {
    var (v, pos) :- GetNat(x, pos, 4);
    match ConditionOf(v)
    case Some(c) => Got(c, pos)
    case None => Failed
  }

  /** A one-byte length, at most max, and that many bytes. */
  ghost function GetName(x: seq<bool>, pos: nat, max: nat): Read<seq<bv8>> {
    var (n, pos) :- GetNat(x, pos, 8);
    if n <= max then GetBytes(x, pos, n) else Failed
  }

  datatype RawHeader = RawHeader(header: Header, isData: bool, dataFieldLength: nat)

  datatype Flags = Flags(version: nat, isData: bool, direction: Direction, mode: TransmissionMode, crcFlag: CrcFlag)

  ghost function DecodeFlags(x: seq<bool>, pos: nat): Read<Flags> {
    var (version, pos) :- GetNat(x, pos, 3);
    var (pduType, pos) :- GetNat(x, pos, 1);
    var (direction, pos) :- GetNat(x, pos, 1);
    var (mode, pos) :- GetNat(x, pos, 1);
    var (crcFlag, pos) :- GetNat(x, pos, 1);
    var (_, pos) :- GetPattern(x, pos, Zeros(1));
    Got(Flags(version, pduType == 1,
              if direction == 0 then TowardReceiver else TowardSender,
              if mode == 0 then Acknowledged else Unacknowledged,
              if crcFlag == 0 then CrcNotPresent else CrcPresent), pos)
  }

  ghost function DecodeLengths(x: seq<bool>, pos: nat): Read<(nat, nat)> {
    var (_, pos) :- GetPattern(x, pos, Zeros(1));
    var (ids, pos) :- GetNat(x, pos, 3);
    var (_, pos) :- GetPattern(x, pos, Zeros(1));
    var (seqNumber, pos) :- GetNat(x, pos, 3);
    Got((ids + 1, seqNumber + 1), pos)
  }

  ghost function DecodeHeader(x: seq<bool>, pos: nat): Read<RawHeader> {
    var (f, pos) :- DecodeFlags(x, pos);
    var (dataFieldLength, pos) :- GetNat(x, pos, 16);
    var (lengths, pos) :- DecodeLengths(x, pos);
    if !(1 <= lengths.0 <= 7) then Failed else
    var (source, pos) :- GetBytes(x, pos, lengths.0);
    if !(1 <= lengths.1 <= 7) then Failed else
    var (seqNumber, pos) :- GetBytes(x, pos, lengths.1);
    var (destination, pos) :- GetBytes(x, pos, lengths.0);
    Got(RawHeader(Header(f.version, f.direction, f.mode, f.crcFlag, source, seqNumber, destination), f.isData, dataFieldLength), pos)
  }

  ghost function DecodeEof(x: seq<bool>, pos: nat): Read<Payload> {
    var (condition, pos) :- GetCondition(x, pos);
    var (_, pos) :- GetPattern(x, pos, Zeros(4));
    var (checksum, pos) :- GetNat(x, pos, 32);
    var (fileSize, pos) :- GetNat(x, pos, 32);
    Got(Eof(condition, checksum, fileSize), pos)
  }

  ghost function DecodeFinished(x: seq<bool>, pos: nat): Read<Payload> {
    var (condition, pos) :- GetCondition(x, pos);
    var (_, pos) :- GetPattern(x, pos, [true]);
    var (delivery, pos) :- GetNat(x, pos, 1);
    var (fileStatus, pos) :- GetNat(x, pos, 2);
    Got(Finished(condition, if delivery == 0 then DataComplete else DataIncomplete, FileStatusOf(fileStatus)), pos)
  }

  ghost function DecodeAck(x: seq<bool>, pos: nat): Read<Payload> {
    var (directive, pos) :- GetNat(x, pos, 8);
    var (subtype, pos) :- GetNat(x, pos, 4);
    if subtype > 1 then Failed else
    var (condition, pos) :- GetCondition(x, pos);
    var (_, pos) :- GetPattern(x, pos, Zeros(2));
    var (status, pos) :- GetNat(x, pos, 2);
    Got(Ack(directive, if subtype == 0 then AckOthers else AckFinished, condition, AckStatusOf(status)), pos)
  }

  ghost function DecodeMetadata(x: seq<bool>, pos: nat): Read<Payload> {
    var (_, pos) :- GetPattern(x, pos, Zeros(1));
    var (closure, pos) :- GetNat(x, pos, 1);
    var (_, pos) :- GetPattern(x, pos, Zeros(2));
    var (checksumType, pos) :- GetNat(x, pos, 4);
    if checksumType != 0 && checksumType != 15 then Failed else
    var (size, pos) :- GetNat(x, pos, 32);
    var (sourceName, pos) :- GetName(x, pos, 128);
    var (destinationName, pos) :- GetName(x, pos, 128);
    Got(Metadata(if closure == 0 then Requested else NotRequested, if checksumType == 0 then Modular else NoChecksum,
                 size, sourceName, destinationName), pos)
  }

  ghost function DecodeFileData(x: seq<bool>, pos: nat): Read<Payload> {
    var (offset, pos) :- GetNat(x, pos, 32);
    var (length, pos) :- GetNat(x, pos, 16);
    if length > 4096 then Failed else
    var (data, pos) :- GetBytes(x, pos, length);
    Got(FileData(offset, data), pos)
  }

  ghost function DecodePayload(isData: bool, x: seq<bool>): Read<Payload> {
    if isData then DecodeFileData(x, 0) else
    var (code, pos) :- GetNat(x, 0, 8);
    if code == 4 then DecodeEof(x, pos)
    else if code == 5 then DecodeFinished(x, pos)
    else if code == 6 then DecodeAck(x, pos)
    else if code == 7 then DecodeMetadata(x, pos)
    else Failed
  }

  /** The payload is parsed from a cleared buffer of PAYLOAD_BYTES into which the announced number of
      bytes is copied, so a short payload reads as if zeros followed. */
  ghost function DecodePdu(x: seq<bool>, pos: nat): Read<Pdu> {
    var (raw, pos) :- DecodeHeader(x, pos);
    if raw.dataFieldLength > PAYLOAD_BYTES then Failed else
    if pos + 8 * raw.dataFieldLength > |x| then Failed else
    match DecodePayload(raw.isData, x[pos..pos + 8 * raw.dataFieldLength] + Zeros(8 * (PAYLOAD_BYTES - raw.dataFieldLength)))
    case Failed => Failed
    case Got(payload, _) => Got(Pdu(raw.header, payload), pos + 8 * raw.dataFieldLength)
  }

  // ---------- round trip ----------

  ghost predicate Holds(x: seq<bool>, pos: nat, piece: seq<bool>) {
    pos + |piece| <= |x| && x[pos..pos + |piece|] == piece
  }

  lemma HoldsBoth(x: seq<bool>, pos: nat, a: seq<bool>, b: seq<bool>)
    requires Holds(x, pos, a + b)
    ensures Holds(x, pos, a) && Holds(x, pos + |a|, b)
  {
    var y := x[pos..pos + |a + b|];
    assert x[pos..pos + |a|] == y[..|a|] && x[pos + |a|..pos + |a| + |b|] == y[|a|..];
  }

  lemma GotNat(x: seq<bool>, pos: nat, v: nat, n: nat)
    requires Holds(x, pos, NatBits(v, n)) && v < Pow2(n)
    ensures GetNat(x, pos, n) == Got(v, pos + n)
  {
    NatBitsValue(v, n);
  }

  lemma GotPattern(x: seq<bool>, pos: nat, pattern: seq<bool>)
    requires Holds(x, pos, pattern)
    ensures GetPattern(x, pos, pattern) == Got((), pos + |pattern|)
  {}

  lemma BytesAtBits(x: seq<bool>, pos: nat, n: nat)
    requires pos + 8 * n <= |x|
    ensures BitsOf(BytesAt(x, pos, n)) == x[pos..pos + 8 * n]
  {
    hide BitAt, Cast, NatAt, LowBits;
    var b := BytesAt(x, pos, n);
    forall i | 0 <= i < 8 * n ensures BitsOf(b)[i] == x[pos + i] {
      var j, k := i / 8, i % 8;
      ByteOfNat(x, pos + 8 * j);
      assert BitsOf(b)[i] == BitAt(b[j], k);
      LowBitAt(b[j], 8, k);
    }
  }

  lemma ByteOfNat(x: seq<bool>, pos: nat)
    requires pos + 8 <= |x|
    ensures LowBits(Cast(NatAt(x, pos, 8)), 8) == x[pos..pos + 8]
  {
    hide Cast, LowBits, NatBits;
    var v := NatAt(x, pos, 8);
    CastBits(v, 8);
    BitsNatBits(x[pos..pos + 8]);
  }

  lemma GotBytes(x: seq<bool>, pos: nat, s: seq<bv8>)
    requires Holds(x, pos, BitsOf(s))
    ensures GetBytes(x, pos, |s|) == Got(s, pos + 8 * |s|)
  {
    hide BitsOf, BytesAt;
    BytesAtBits(x, pos, |s|);
    BitsOfIsInjective(BytesAt(x, pos, |s|), s);
  }

  lemma PowerValues()
    ensures Pow2(1) == 2 && Pow2(2) == 4 && Pow2(3) == 8 && Pow2(4) == 16 && Pow2(8) == 0x100
    ensures Pow2(16) == 0x1_0000 && Pow2(32) == UINT32
  {
    Pow2Values();
  }

  /** A number field followed by more fields. */
  lemma NatThen(x: seq<bool>, pos: nat, v: nat, n: nat, rest: seq<bool>)
    requires Holds(x, pos, NatBits(v, n) + rest) && v < Pow2(n)
    ensures GetNat(x, pos, n) == Got(v, pos + n) && Holds(x, pos + n, rest)
  {
    HoldsBoth(x, pos, NatBits(v, n), rest);
    GotNat(x, pos, v, n);
  }

  lemma PatternThen(x: seq<bool>, pos: nat, pattern: seq<bool>, rest: seq<bool>)
    requires Holds(x, pos, pattern + rest)
    ensures GetPattern(x, pos, pattern) == Got((), pos + |pattern|) && Holds(x, pos + |pattern|, rest)
  {
    HoldsBoth(x, pos, pattern, rest);
  }

  lemma BytesThen(x: seq<bool>, pos: nat, s: seq<bv8>, rest: seq<bool>)
    requires Holds(x, pos, BitsOf(s) + rest)
    ensures GetBytes(x, pos, |s|) == Got(s, pos + 8 * |s|) && Holds(x, pos + 8 * |s|, rest)
  {
    HoldsBoth(x, pos, BitsOf(s), rest);
    GotBytes(x, pos, s);
  }

  lemma FlagsRoundTrip(x: seq<bool>, pos: nat, h: Header, isData: bool)
    requires h.version <= 7 && Holds(x, pos, FlagBits(h, isData))
    ensures DecodeFlags(x, pos) == Got(Flags(h.version, isData, h.direction, h.mode, h.crcFlag), pos + 8)
  {
    hide NatBits, GetNat, GetPattern, Holds, Pow2, Zeros;
    PowerValues();
    var p5 := Zeros(1);
    var p4 := NatBits(Flag(h.crcFlag.CrcPresent?), 1) + p5;
    var p3 := NatBits(Flag(h.mode.Unacknowledged?), 1) + p4;
    var p2 := NatBits(Flag(h.direction.TowardSender?), 1) + p3;
    var p1 := NatBits(Flag(isData), 1) + p2;
    NatThen(x, pos, h.version, 3, p1);
    NatThen(x, pos + 3, Flag(isData), 1, p2);
    NatThen(x, pos + 4, Flag(h.direction.TowardSender?), 1, p3);
    NatThen(x, pos + 5, Flag(h.mode.Unacknowledged?), 1, p4);
    NatThen(x, pos + 6, Flag(h.crcFlag.CrcPresent?), 1, p5);
    GotPattern(x, pos + 7, p5);
  }

  lemma LengthsRoundTrip(x: seq<bool>, pos: nat, ids: nat, seqNumber: nat)
    requires 1 <= ids <= 8 && 1 <= seqNumber <= 8 && Holds(x, pos, LengthBits(ids, seqNumber))
    ensures DecodeLengths(x, pos) == Got((ids, seqNumber), pos + 8)
  {
    hide NatBits, GetNat, GetPattern, Holds, Pow2, Zeros;
    PowerValues();
    var p3 := NatBits(seqNumber - 1, 3);
    var p2 := Zeros(1) + p3;
    var p1 := NatBits(ids - 1, 3) + p2;
    PatternThen(x, pos, Zeros(1), p1);
    NatThen(x, pos + 1, ids - 1, 3, p2);
    PatternThen(x, pos + 4, Zeros(1), p3);
    GotNat(x, pos + 5, seqNumber - 1, 3);
  }

  lemma HeaderRoundTrip(x: seq<bool>, pos: nat, h: Header, isData: bool, length: nat)
    requires h.version <= 7 && length < 0x1_0000
    requires 1 <= |h.source| == |h.destination| <= 7 && 1 <= |h.seqNumber| <= 7
    requires Holds(x, pos, HeaderBits(h, isData, length))
    ensures DecodeHeader(x, pos) == Got(RawHeader(h, isData, length), pos + |HeaderBits(h, isData, length)|)
  {
    hide NatBits, GetNat, GetBytes, Holds, Pow2, FlagBits, LengthBits, DecodeFlags, DecodeLengths, BitsOf;
    PowerValues();
    var e, n := |h.source|, |h.seqNumber|;
    var p4 := BitsOf(h.seqNumber) + BitsOf(h.destination);
    var p3 := BitsOf(h.source) + p4;
    var p2 := LengthBits(e, n) + p3;
    var p1 := NatBits(length, 16) + p2;
    HoldsBoth(x, pos, FlagBits(h, isData), p1);
    FlagsRoundTrip(x, pos, h, isData);
    NatThen(x, pos + 8, length, 16, p2);
    HoldsBoth(x, pos + 24, LengthBits(e, n), p3);
    LengthsRoundTrip(x, pos + 24, e, n);
    BytesThen(x, pos + 32, h.source, p4);
    BytesThen(x, pos + 32 + 8 * e, h.seqNumber, BitsOf(h.destination));
    GotBytes(x, pos + 32 + 8 * e + 8 * n, h.destination);
  }

  lemma ConditionThen(x: seq<bool>, pos: nat, c: ConditionCode, rest: seq<bool>)
    requires Holds(x, pos, NatBits(ConditionValue(c), 4) + rest)
    ensures GetCondition(x, pos) == Got(c, pos + 4) && Holds(x, pos + 4, rest)
  {
    hide NatBits, GetNat, Holds, Pow2;
    PowerValues();
    NatThen(x, pos, ConditionValue(c), 4, rest);
  }

  lemma {:induction false} NameThen(x: seq<bool>, pos: nat, name: seq<bv8>, max: nat, rest: seq<bool>)
    requires |name| <= max < 0x100 && Holds(x, pos, NatBits(|name|, 8) + (BitsOf(name) + rest))
    ensures GetName(x, pos, max) == Got(name, pos + 8 + 8 * |name|) && Holds(x, pos + 8 + 8 * |name|, rest)
  {
    hide NatBits, BitsOf, GetNat, GetBytes, Holds;
    ByteThen(x, pos, |name|, BitsOf(name) + rest);
    BytesThen(x, pos + 8, name, rest);
  }

  lemma ByteThen(x: seq<bool>, pos: nat, v: nat, rest: seq<bool>)
    requires Holds(x, pos, NatBits(v, 8) + rest) && v < 0x100
    ensures GetNat(x, pos, 8) == Got(v, pos + 8) && Holds(x, pos + 8, rest)
  {
    hide *;
    PowerValues();
    NatThen(x, pos, v, 8, rest);
  }

  lemma EofRoundTrip(x: seq<bool>, pos: nat, p: Payload)
    requires p.Eof? && p.checksum < UINT32 && p.fileSize < UINT32 && Holds(x, pos, BodyBits(p))
    ensures DecodeEof(x, pos) == Got(p, pos + |BodyBits(p)|)
  {
    hide NatBits, GetNat, GetPattern, GetCondition, Holds, Pow2, Zeros;
    PowerValues();
    var p3 := NatBits(p.fileSize, 32);
    var p2 := NatBits(p.checksum, 32) + p3;
    var p1 := Zeros(4) + p2;
    ConditionThen(x, pos, p.condition, p1);
    PatternThen(x, pos + 4, Zeros(4), p2);
    NatThen(x, pos + 8, p.checksum, 32, p3);
    GotNat(x, pos + 40, p.fileSize, 32);
  }

  lemma FinishedRoundTrip(x: seq<bool>, pos: nat, p: Payload)
    requires p.Finished? && Holds(x, pos, BodyBits(p))
    ensures DecodeFinished(x, pos) == Got(p, pos + |BodyBits(p)|)
  {
    hide NatBits, GetNat, GetPattern, GetCondition, Holds, Pow2;
    PowerValues();
    var p3 := NatBits(FileStatusValue(p.fileStatus), 2);
    var p2 := NatBits(Flag(p.delivery.DataIncomplete?), 1) + p3;
    ConditionThen(x, pos, p.condition, [true] + p2);
    PatternThen(x, pos + 4, [true], p2);
    NatThen(x, pos + 5, Flag(p.delivery.DataIncomplete?), 1, p3);
    GotNat(x, pos + 6, FileStatusValue(p.fileStatus), 2);
  }

  lemma AckRoundTrip(x: seq<bool>, pos: nat, p: Payload)
    requires p.Ack? && p.directive < 0x100 && Holds(x, pos, BodyBits(p))
    ensures DecodeAck(x, pos) == Got(p, pos + |BodyBits(p)|)
  {
    hide NatBits, GetNat, GetPattern, GetCondition, Holds, Pow2, Zeros;
    PowerValues();
    var p4 := NatBits(AckStatusValue(p.status), 2);
    var p3 := Zeros(2) + p4;
    var p2 := NatBits(ConditionValue(p.condition), 4) + p3;
    var p1 := NatBits(Flag(p.subtype.AckFinished?), 4) + p2;
    NatThen(x, pos, p.directive, 8, p1);
    NatThen(x, pos + 8, Flag(p.subtype.AckFinished?), 4, p2);
    ConditionThen(x, pos + 12, p.condition, p3);
    PatternThen(x, pos + 16, Zeros(2), p4);
    GotNat(x, pos + 18, AckStatusValue(p.status), 2);
  }

  lemma MetadataRoundTrip(x: seq<bool>, pos: nat, p: Payload)
    requires p.Metadata? && p.size < UINT32 && |p.sourceName| <= 128 && |p.destinationName| <= 128
    requires Holds(x, pos, BodyBits(p))
    ensures DecodeMetadata(x, pos) == Got(p, pos + |BodyBits(p)|)
  {
    hide NatBits, GetNat, GetPattern, GetName, Holds, Pow2, Zeros, BitsOf;
    PowerValues();
    var n := |p.sourceName|;
    var p6 := NatBits(|p.destinationName|, 8) + (BitsOf(p.destinationName) + []);
    assert BitsOf(p.destinationName) + [] == BitsOf(p.destinationName);
    var p5 := NatBits(n, 8) + (BitsOf(p.sourceName) + p6);
    var p4 := NatBits(p.size, 32) + p5;
    var p3 := NatBits(if p.checksumType.Modular? then 0 else 15, 4) + p4;
    var p2 := Zeros(2) + p3;
    var p1 := NatBits(Flag(p.closure.NotRequested?), 1) + p2;
    PatternThen(x, pos, Zeros(1), p1);
    NatThen(x, pos + 1, Flag(p.closure.NotRequested?), 1, p2);
    PatternThen(x, pos + 2, Zeros(2), p3);
    NatThen(x, pos + 4, if p.checksumType.Modular? then 0 else 15, 4, p4);
    NatThen(x, pos + 8, p.size, 32, p5);
    NameThen(x, pos + 40, p.sourceName, 128, p6);
    NameThen(x, pos + 48 + 8 * n, p.destinationName, 128, []);
  }

  lemma FileDataRoundTrip(x: seq<bool>, pos: nat, p: Payload)
    requires p.FileData? && p.offset < UINT32 && |p.data| <= 4096 && Holds(x, pos, BodyBits(p))
    ensures DecodeFileData(x, pos) == Got(p, pos + |BodyBits(p)|)
  {
    hide NatBits, GetNat, GetBytes, Holds, Pow2, BitsOf;
    PowerValues();
    var p2 := BitsOf(p.data);
    var p1 := NatBits(|p.data|, 16) + p2;
    NatThen(x, pos, p.offset, 32, p1);
    NatThen(x, pos + 32, |p.data|, 16, p2);
    GotBytes(x, pos + 48, p.data);
  }

  lemma PayloadRoundTrip(x: seq<bool>, p: Payload)
    requires ValidPayload(p) && Holds(x, 0, PayloadBits(p))
    ensures DecodePayload(p.FileData?, x) == Got(p, |PayloadBits(p)|)
  {
    hide NatBits, GetNat, Holds, Pow2, BodyBits, DecodeEof, DecodeFinished, DecodeAck, DecodeMetadata, DecodeFileData;
    PowerValues();
    if p.FileData? {
      FileDataRoundTrip(x, 0, p);
    } else {
      NatThen(x, 0, DirectiveCode(p), 8, BodyBits(p));
      match p
      case Eof(_, _, _) => EofRoundTrip(x, 8, p);
      case Finished(_, _, _) => FinishedRoundTrip(x, 8, p);
      case Ack(_, _, _, _) => AckRoundTrip(x, 8, p);
      case Metadata(_, _, _, _, _) => MetadataRoundTrip(x, 8, p);
    }
  }

  lemma PayloadSize(p: Payload)
    requires ValidPayload(p)
    ensures 1 <= PayloadLength(p) <= PAYLOAD_BYTES - 1
  {
    hide NatBits, BitsOf;
  }

  /** Decoding the encoding of any valid PDU with equally long entity ids, wherever it starts and
      whatever follows, gives the PDU back and ends where the encoding ends, on a byte boundary. */
  lemma PduRoundTrip(x: seq<bool>, pos: nat, p: Pdu)
    requires Encodable(p) && Holds(x, pos, PduBits(p))
    ensures DecodePdu(x, pos) == Got(p, pos + |PduBits(p)|)
    ensures |PduBits(p)| % 8 == 0
  {
    hide Holds, HeaderBits, PayloadBits, DecodeHeader, DecodePayload;
    var n := PayloadLength(p.payload);
    var h, body := HeaderBits(p.header, p.payload.FileData?, n), PadToByte(PayloadBits(p.payload));
    PayloadSize(p.payload);
    HoldsBoth(x, pos, h, body);
    HeaderRoundTrip(x, pos, p.header, p.payload.FileData?, n);
    PayloadInBuffer(x, pos + |h|, p.payload);
  }

  lemma PayloadInBuffer(x: seq<bool>, pos: nat, p: Payload)
    requires ValidPayload(p) && Holds(x, pos, PadToByte(PayloadBits(p)))
    ensures PayloadLength(p) <= PAYLOAD_BYTES && pos + 8 * PayloadLength(p) <= |x|
    ensures DecodePayload(p.FileData?, x[pos..pos + 8 * PayloadLength(p)] + Zeros(8 * (PAYLOAD_BYTES - PayloadLength(p))))
         == Got(p, |PayloadBits(p)|)
  {
    hide PayloadBits, DecodePayload;
    PayloadSize(p);
    var n := PayloadLength(p);
    var y := x[pos..pos + 8 * n] + Zeros(8 * (PAYLOAD_BYTES - n));
    assert y[..|PayloadBits(p)|] == PayloadBits(p);
    PayloadRoundTrip(y, p);
  }
}

/** The PDU decoder of dataview/dataview.c, against the parser of module Pdus. Error codes are not
    modelled: every failure of the source is `Failed`. */
module PduDecoder {
  import opened BitSequences
  import opened BitStreams
  import opened Integers
  import opened Pdus
  import opened PduEncoder

  /** Fields shorter than a byte are read before the end of the stream is checked, so the memory must
      be there. */
  ghost predicate InMemory(s: BitStream, n: nat)
    reads s
  {
    s.Pos() + n <= 8 * s.buf.Length
  }

  /** One byte of memory after the announced end is enough. */
  ghost predicate Readable(s: BitStream)
    reads s
  {
    s.Valid() && s.count < s.buf.Length
  }

  method ReadNat(s: BitStream, n: nat) returns (r: Read<nat>)
    requires s.Valid() && n <= 7 && InMemory(s, n)
    modifies s
    ensures r == GetNat(old(s.Bits()), old(s.Pos()), n)
    ensures r.Got? ==> s.Valid() && s.Bits() == old(s.Bits()) && s.Pos() == r.pos
  {
    hide BitStream.Bits, NatAt;
    var ok, v := DecodeNonNegativeInteger(s, n);
    r := if ok then Got(v, s.Pos()) else Failed;
  }

  method ReadByteNat(s: BitStream) returns (r: Read<nat>)
    requires s.Valid()
    modifies s
    ensures r == GetNat(old(s.Bits()), old(s.Pos()), 8)
    ensures r.Got? ==> s.Valid() && s.Bits() == old(s.Bits()) && s.Pos() == r.pos
  {
    hide BitStream.Bits, NatAt;
    var ok, v := DecodeConstSize8(s);
    r := if ok then Got(v, s.Pos()) else Failed;
  }

  method ReadBigEndian(s: BitStream, size: nat) returns (r: Read<nat>)
    requires s.Valid() && size <= 4
    modifies s
    ensures r == GetNat(old(s.Bits()), old(s.Pos()), 8 * size)
    ensures r.Got? ==> s.Valid() && s.Bits() == old(s.Bits()) && s.Pos() == r.pos
  {
    hide BitStream.Bits, NatAt;
    var ok, v := DecodeBigEndian(s, size);
    r := if ok then Got(v, s.Pos()) else Failed;
  }

  method ReadBytes(s: BitStream, n: nat) returns (r: Read<seq<bv8>>)
    requires s.Valid()
    modifies s
    ensures r == GetBytes(old(s.Bits()), old(s.Pos()), n)
    ensures r.Got? ==> s.Valid() && s.Bits() == old(s.Bits()) && s.Pos() == r.pos
  {
    hide BitStream.Bits, BitsOf, BytesAt;
    ghost var x, p := s.Bits(), s.Pos();
    var ok, arr := s.DecodeOctetString_no_length(n);
    if ok {
      BytesAtBits(x, p, n);
      BitsOfIsInjective(arr, BytesAt(x, p, n));
    }
    r := if ok then Got(arr, s.Pos()) else Failed;
  }

  method ReadPattern(s: BitStream, tmp: seq<bv8>, n: nat, ghost pattern: seq<bool>) returns (r: Read<()>)
    requires s.Valid() && n <= 8 * |tmp| && pattern == BitsOf(tmp)[..n]
    requires n <= 8 && InMemory(s, n)
    modifies s
    ensures r == GetPattern(old(s.Bits()), old(s.Pos()), pattern)
    ensures r.Got? ==> s.Valid() && s.Bits() == old(s.Bits()) && s.Pos() == r.pos
  {
    hide BitStream.Bits, BitsOf;
    var ok, matches := ReadBitPattern(s, tmp, n);
    r := if ok && matches then Got((), s.Pos()) else Failed;
  }

  method ReadZeros(s: BitStream, n: nat) returns (r: Read<()>)
    requires s.Valid() && n <= 8 && InMemory(s, n)
    modifies s
    ensures r == GetPattern(old(s.Bits()), old(s.Pos()), Zeros(n))
    ensures r.Got? ==> s.Valid() && s.Bits() == old(s.Bits()) && s.Pos() == r.pos
  {
    hide BitStream.Bits, BitsOf, Zeros, GetPattern;
    var tmp := [0x00 as bv8];
    ZeroPattern(n);
    r := ReadPattern(s, tmp, n, Zeros(n));
  }

  method ReadCondition(s: BitStream) returns (r: Read<ConditionCode>)
    requires s.Valid() && InMemory(s, 4)
    modifies s
    ensures r == GetCondition(old(s.Bits()), old(s.Pos()))
    ensures r.Got? ==> s.Valid() && s.Bits() == old(s.Bits()) && s.Pos() == r.pos
  {
    hide BitStream.Bits, GetNat;
    var v :- ReadNat(s, 4);
    r := match ConditionOf(v.0) case Some(c) => Got(c, s.Pos()) case None => Failed;
  }

  method ReadName(s: BitStream, max: nat) returns (r: Read<seq<bv8>>)
    requires s.Valid()
    modifies s
    ensures r == GetName(old(s.Bits()), old(s.Pos()), max)
    ensures r.Got? ==> s.Valid() && s.Bits() == old(s.Bits()) && s.Pos() == r.pos
  {
    hide BitStream.Bits, GetNat, GetBytes;
    var n :- ReadByteNat(s);
    if n.0 > max {
      return Failed;
    }
    r := ReadBytes(s, n.0);
  }

  method ReadFlags(s: BitStream) returns (r: Read<Flags>)
    requires Readable(s)
    modifies s
    ensures r == DecodeFlags(old(s.Bits()), old(s.Pos()))
    ensures r.Got? ==> s.Valid() && s.Bits() == old(s.Bits()) && s.Pos() == r.pos
  {
    hide BitStream.Bits, GetNat, GetPattern, BitStream.Pos;
    var version :- ReadNat(s, 3);
    var pduType :- ReadNat(s, 1);
    var direction :- ReadNat(s, 1);
    var mode :- ReadNat(s, 1);
    var crcFlag :- ReadNat(s, 1);
    var _ :- ReadZeros(s, 1);
    r := Got(Flags(version.0, pduType.0 == 1,
                   if direction.0 == 0 then TowardReceiver else TowardSender,
                   if mode.0 == 0 then Acknowledged else Unacknowledged,
                   if crcFlag.0 == 0 then CrcNotPresent else CrcPresent), s.Pos());
  }

  method ReadLengths(s: BitStream) returns (r: Read<(nat, nat)>)
    requires s.Valid() && InMemory(s, 8)
    modifies s
    ensures r == DecodeLengths(old(s.Bits()), old(s.Pos()))
    ensures r.Got? ==> s.Valid() && s.Bits() == old(s.Bits()) && s.Pos() == r.pos
  {
    hide BitStream.Bits, NatAt, BitStream.Pos;
    var _ :- ReadZeros(s, 1);
    var ids :- ReadNat(s, 3);
    var _ :- ReadZeros(s, 1);
    var seqNumber :- ReadNat(s, 3);
    r := Got((ids.0 + 1, seqNumber.0 + 1), s.Pos());
  }

  method ReadHeader(s: BitStream) returns (r: Read<RawHeader>)
    requires Readable(s)
    modifies s
    ensures r == DecodeHeader(old(s.Bits()), old(s.Pos()))
    ensures r.Got? ==> s.Valid() && s.Bits() == old(s.Bits()) && s.Pos() == r.pos
  {
    hide BitStream.Bits, GetNat, GetBytes, DecodeFlags, DecodeLengths, BitStream.Pos;
    var f :- ReadFlags(s);
    var dataFieldLength :- ReadBigEndian(s, 2);
    var lengths :- ReadLengths(s);
    if !(1 <= lengths.0.0 <= 7) {
      return Failed;
    }
    var source :- ReadBytes(s, lengths.0.0);
    if !(1 <= lengths.0.1 <= 7) {
      return Failed;
    }
    var seqNumber :- ReadBytes(s, lengths.0.1);
    var destination :- ReadBytes(s, lengths.0.0);
    r := Got(RawHeader(Header(f.0.version, f.0.direction, f.0.mode, f.0.crcFlag, source.0, seqNumber.0, destination.0), f.0.isData, dataFieldLength.0), s.Pos());
  }

  method ReadEof(s: BitStream) returns (r: Read<Payload>)
    requires s.Valid() && InMemory(s, 72)
    modifies s
    ensures r == DecodeEof(old(s.Bits()), old(s.Pos()))
    ensures r.Got? ==> s.Valid() && s.Bits() == old(s.Bits()) && s.Pos() == r.pos
  {
    hide BitStream.Bits, NatAt, GetPattern, BitStream.Pos;
    var condition :- ReadCondition(s);
    var _ :- ReadZeros(s, 4);
    var checksum :- ReadBigEndian(s, 4);
    var fileSize :- ReadBigEndian(s, 4);
    r := Got(Eof(condition.0, checksum.0, fileSize.0), s.Pos());
  }

  method ReadFinished(s: BitStream) returns (r: Read<Payload>)
    requires s.Valid() && InMemory(s, 8)
    modifies s
    ensures r == DecodeFinished(old(s.Bits()), old(s.Pos()))
    ensures r.Got? ==> s.Valid() && s.Bits() == old(s.Bits()) && s.Pos() == r.pos
  {
    hide BitStream.Bits, NatAt, BitStream.Pos, BitsOf;
    var condition :- ReadCondition(s);
    var tmp := [0x80 as bv8];
    OnePattern();
    var _ :- ReadPattern(s, tmp, 1, [true]);
    var delivery :- ReadNat(s, 1);
    var fileStatus :- ReadNat(s, 2);
    r := Got(Finished(condition.0, if delivery.0 == 0 then DataComplete else DataIncomplete, FileStatusOf(fileStatus.0)), s.Pos());
  }

  method ReadAck(s: BitStream) returns (r: Read<Payload>)
    requires s.Valid() && InMemory(s, 20)
    modifies s
    ensures r == DecodeAck(old(s.Bits()), old(s.Pos()))
    ensures r.Got? ==> s.Valid() && s.Bits() == old(s.Bits()) && s.Pos() == r.pos
  {
    hide BitStream.Bits, NatAt, BitStream.Pos;
    var directive :- ReadByteNat(s);
    var subtype :- ReadNat(s, 4);
    if subtype.0 > 1 {
      return Failed;
    }
    var condition :- ReadCondition(s);
    var _ :- ReadZeros(s, 2);
    var status :- ReadNat(s, 2);
    r := Got(Ack(directive.0, if subtype.0 == 0 then AckOthers else AckFinished, condition.0, AckStatusOf(status.0)), s.Pos());
  }

  method ReadMetadata(s: BitStream) returns (r: Read<Payload>)
    requires s.Valid() && InMemory(s, 40)
    modifies s
    ensures r == DecodeMetadata(old(s.Bits()), old(s.Pos()))
    ensures r.Got? ==> s.Valid() && s.Bits() == old(s.Bits()) && s.Pos() == r.pos
  {
    hide BitStream.Bits, NatAt, BitStream.Pos, GetName;
    var _ :- ReadZeros(s, 1);
    var closure :- ReadNat(s, 1);
    var _ :- ReadZeros(s, 2);
    var checksumType :- ReadNat(s, 4);
    if checksumType.0 != 0 && checksumType.0 != 15 {
      return Failed;
    }
    var size :- ReadBigEndian(s, 4);
    var sourceName :- ReadName(s, 128);
    var destinationName :- ReadName(s, 128);
    r := Got(Metadata(if closure.0 == 0 then Requested else NotRequested, if checksumType.0 == 0 then Modular else NoChecksum,
                      size.0, sourceName.0, destinationName.0), s.Pos());
  }

  method ReadFileData(s: BitStream) returns (r: Read<Payload>)
    requires s.Valid()
    modifies s
    ensures r == DecodeFileData(old(s.Bits()), old(s.Pos()))
    ensures r.Got? ==> s.Valid() && s.Bits() == old(s.Bits()) && s.Pos() == r.pos
  {
    hide BitStream.Bits, GetNat, GetBytes, BitStream.Pos;
    var offset :- ReadBigEndian(s, 4);
    var length :- ReadBigEndian(s, 2);
    if length.0 > 4096 {
      return Failed;
    }
    var data :- ReadBytes(s, length.0);
    r := Got(FileData(offset.0, data.0), s.Pos());
  }

  method ReadPayload(isData: bool, s: BitStream) returns (r: Read<Payload>)
    requires s.Valid() && s.Pos() == 0 && InMemory(s, 8 * PAYLOAD_BYTES)
    modifies s
    ensures r == DecodePayload(isData, old(s.Bits()))
  {
    hide BitStream.Bits, NatAt, DecodeEof, DecodeFinished, DecodeAck, DecodeMetadata, DecodeFileData, BitStream.Pos;
    if isData {
      r := ReadFileData(s);
      return;
    }
    var code :- ReadByteNat(s);
    if code.0 == 4 {
      r := ReadEof(s);
    } else if code.0 == 5 {
      r := ReadFinished(s);
    } else if code.0 == 6 {
      r := ReadAck(s);
    } else if code.0 == 7 {
      r := ReadMetadata(s);
    } else {
      r := Failed;
    }
  }

  method DecodePduStream(s: BitStream) returns (r: Read<Pdu>)
    requires Readable(s)
    modifies s
    ensures r == DecodePdu(old(s.Bits()), old(s.Pos()))
    ensures r.Got? ==> s.Valid() && s.Bits() == old(s.Bits()) && s.Pos() == r.pos && IsConstraintValid(r.value)
  {
    hide BitStream.Bits, DecodeHeader, DecodePayload, BitStream.Pos, BitsOf, Zeros, BytesAt;
    ghost var x := s.Bits();
    var raw :- ReadHeader(s);
    var length := raw.0.dataFieldLength;
    if length > PAYLOAD_BYTES {
      return Failed;
    }
    ghost var p := s.Pos();
    var bytes :- ReadBytes(s, length);
    BytesAtBits(x, p, length);
    var arr := new bv8[PAYLOAD_BYTES];
    var bitStrm := new BitStream.Init(arr, PAYLOAD_BYTES);
    forall j | 0 <= j < length { arr[j] := bytes.0[j]; }
    PaddedBits(arr[..], bytes.0);
    assert arr[..PAYLOAD_BYTES] == arr[..];
    assert bitStrm.Bits() == x[p..p + 8 * length] + Zeros(8 * (PAYLOAD_BYTES - length)) by { BitsAre(bitStrm); }
    assert bitStrm.Valid() && bitStrm.Pos() == 0;
    var payload :- ReadPayload(raw.0.isData, bitStrm);
    r := Got(Pdu(raw.0.header, payload.0), s.Pos());
    DecodedIsValid(x, old(s.Pos()));
  }

  lemma BitsAre(s: BitStream)
    requires s.Valid()
    ensures s.Bits() == BitsOf(s.buf[..s.count])
  {}

  lemma PaddedBits(s: seq<bv8>, bytes: seq<bv8>)
    requires |bytes| <= |s| && s[..|bytes|] == bytes
    requires forall j | |bytes| <= j < |s| :: s[j] == 0
    ensures BitsOf(s) == BitsOf(bytes) + Zeros(8 * (|s| - |bytes|))
  {
    hide BitsOf;
    BitsOfBytes(bytes, s[|bytes|..]);
    assert s == bytes + s[|bytes|..];
    ZeroBuffer(s[|bytes|..]);
  }

  /** What decodes satisfies the constraints, so the final check of the source never fails. */
  lemma DecodedIsValid(x: seq<bool>, pos: nat)
    ensures DecodePdu(x, pos).Got? ==> IsConstraintValid(DecodePdu(x, pos).value)
  {
    hide DecodePayload, DecodeHeader, ValidPayload;
    var r := DecodeHeader(x, pos);
    if r.Got? {
      DecodedHeaderIsValid(x, pos);
      var n := r.value.dataFieldLength;
      if n <= PAYLOAD_BYTES && r.pos + 8 * n <= |x| {
        DecodedPayloadIsValid(r.value.isData, x[r.pos..r.pos + 8 * n] + Zeros(8 * (PAYLOAD_BYTES - n)));
      }
    }
  }

  lemma DecodedHeaderIsValid(x: seq<bool>, pos: nat)
    requires DecodeHeader(x, pos).Got?
    ensures var h := DecodeHeader(x, pos).value.header;
      h.version <= 7 && 1 <= |h.source| == |h.destination| <= 7 && 1 <= |h.seqNumber| <= 7
  {
    hide NatAt, BytesAt, Pow2;
    PowerValues();
    NatAtBound(x, pos, 3);
  }

  lemma DecodedPayloadIsValid(isData: bool, y: seq<bool>)
    ensures DecodePayload(isData, y).Got? ==> ValidPayload(DecodePayload(isData, y).value)
  {
    hide NatAt, BytesAt, Pow2;
    PowerValues();
    if |y| >= 32 { NatAtBound(y, 0, 32); }
    if |y| >= 16 { NatAtBound(y, 8, 8); }
    if |y| >= 48 { NatAtBound(y, 16, 32); }
    if |y| >= 80 { NatAtBound(y, 48, 32); }
  }
}

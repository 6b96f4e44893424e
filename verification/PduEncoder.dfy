/** The PDU encoder of dataview/dataview.c, against the layout of module Pdus. */
module PduEncoder {
  import opened BitSequences
  import opened BitStreams
  import opened Integers
  import opened Pdus

  lemma ZeroPattern(n: nat)
    requires n <= 8
    ensures BitsOf([0x00])[..n] == Zeros(n)
  {
    ZeroBuffer([0x00]);
  }

  lemma OnePattern()
    ensures BitsOf([0x80])[..1] == [true]
  {}

  /** Nested concatenations of fields, as the encoder builds them and as the layout lists them. */
  lemma Regroup<T>(w: seq<T>, a: seq<T>, b: seq<T>)
    ensures (w + a) + b == w + (a + b)
  {}

  lemma Regroup3<T>(w: seq<T>, a: seq<T>, b: seq<T>, c: seq<T>)
    ensures w + a + b + c == w + (a + (b + c))
  {
    Regroup(w + a, b, c); Regroup(w, a, b + c);
  }

  lemma Regroup4<T>(w: seq<T>, a: seq<T>, b: seq<T>, c: seq<T>, d: seq<T>)
    ensures w + a + b + c + d == w + (a + (b + (c + d)))
  {
    Regroup3(w + a, b, c, d); Regroup(w, a, b + (c + d));
  }

  lemma Regroup5<T>(w: seq<T>, a: seq<T>, b: seq<T>, c: seq<T>, d: seq<T>, e: seq<T>)
    ensures w + a + b + c + d + e == w + (a + (b + (c + (d + e))))
  {
    Regroup4(w + a, b, c, d, e); Regroup(w, a, b + (c + (d + e)));
  }

  lemma Regroup6<T>(w: seq<T>, a: seq<T>, b: seq<T>, c: seq<T>, d: seq<T>, e: seq<T>, f: seq<T>)
    ensures w + a + b + c + d + e + f == w + (a + (b + (c + (d + (e + f)))))
  {
    Regroup4(w + a + b, c, d, e, f); Regroup3(w, a, b, c + (d + (e + f)));
  }

  lemma Regroup9<T>(w: seq<T>, a: seq<T>, b: seq<T>, c: seq<T>, d: seq<T>, e: seq<T>, f: seq<T>, g: seq<T>, h: seq<T>, i: seq<T>)
    ensures w + a + b + c + d + e + f + g + h + i == w + (a + (b + (c + (d + (e + (f + (g + (h + i))))))))
  {
    Regroup5(w + a + b + c + d, e, f, g, h, i); Regroup5(w, a, b, c, d, e + (f + (g + (h + i))));
  }

  method AppendZeros(s: BitStream, n: nat)
    requires s.Valid() && s.Zeroed() && n <= 8 && s.HasRoom(n)
    modifies s, s.buf
    ensures s.Valid() && s.Zeroed() && s.Pos() == old(s.Pos()) + n
    ensures s.Written() == old(s.Written()) + Zeros(n)
  {
    hide Extends, ZeroFrom, BitsOf;
    var tmp := [0x00 as bv8];
    s.AppendBits(tmp, n);
    ZeroPattern(n);
  }

  method EncodeFlags(s: BitStream, h: Header, isData: bool)
    requires h.version <= 7
    requires s.Valid() && s.Zeroed() && s.HasRoom(8)
    modifies s, s.buf
    ensures s.Valid() && s.Zeroed() && s.Pos() == old(s.Pos()) + 8
    ensures s.Written() == old(s.Written()) + FlagBits(h, isData)
  {
    hide NatBits, Zeros, Pow2, BitStream.Bits, BitStream.Pos, BitStream.Written, BitStream.Zeroed;
    PowerValues();
    ghost var w := s.Written();
    EncodeConstSize(s, h.version, 3);
    EncodeConstSize(s, Flag(isData), 1);
    EncodeConstSize(s, Flag(h.direction.TowardSender?), 1);
    EncodeConstSize(s, Flag(h.mode.Unacknowledged?), 1);
    EncodeConstSize(s, Flag(h.crcFlag.CrcPresent?), 1);
    AppendZeros(s, 1);
    Regroup6(w, NatBits(h.version, 3), NatBits(Flag(isData), 1), NatBits(Flag(h.direction.TowardSender?), 1),
             NatBits(Flag(h.mode.Unacknowledged?), 1), NatBits(Flag(h.crcFlag.CrcPresent?), 1), Zeros(1));
  }

  method EncodeLengths(s: BitStream, ids: nat, seqNumber: nat)
    requires 1 <= ids <= 8 && 1 <= seqNumber <= 8
    requires s.Valid() && s.Zeroed() && s.HasRoom(8)
    modifies s, s.buf
    ensures s.Valid() && s.Zeroed() && s.Pos() == old(s.Pos()) + 8
    ensures s.Written() == old(s.Written()) + LengthBits(ids, seqNumber)
  {
    hide NatBits, Zeros, Pow2, BitStream.Bits, BitStream.Pos, BitStream.Written, BitStream.Zeroed;
    PowerValues();
    ghost var w := s.Written();
    AppendZeros(s, 1);
    EncodeConstSize(s, ids - 1, 3);
    AppendZeros(s, 1);
    EncodeConstSize(s, seqNumber - 1, 3);
    Regroup4(w, Zeros(1), NatBits(ids - 1, 3), Zeros(1), NatBits(seqNumber - 1, 3));
  }

  method EncodeEof(s: BitStream, p: Payload)
    requires p.Eof? && s.Valid() && s.Zeroed() && s.HasRoom(72)
    modifies s, s.buf
    ensures s.Valid() && s.Zeroed() && s.Written() == old(s.Written()) + BodyBits(p)
  {
    hide NatBits, Zeros, Pow2, BitStream.Bits, BitStream.Pos, BitStream.Written, BitStream.Zeroed;
    PowerValues();
    ghost var w := s.Written();
    EncodeConstSize(s, ConditionValue(p.condition), 4);
    AppendZeros(s, 4);
    EncodeBigEndian(s, p.checksum, 4);
    EncodeBigEndian(s, p.fileSize, 4);
    Regroup4(w, NatBits(ConditionValue(p.condition), 4), Zeros(4), NatBits(p.checksum, 32), NatBits(p.fileSize, 32));
  }

  method EncodeFinished(s: BitStream, p: Payload)
    requires p.Finished? && s.Valid() && s.Zeroed() && s.HasRoom(8)
    modifies s, s.buf
    ensures s.Valid() && s.Zeroed() && s.Written() == old(s.Written()) + BodyBits(p)
  {
    hide NatBits, BitsOf, Pow2, BitStream.Bits, BitStream.Pos, BitStream.Written, BitStream.Zeroed, Extends;
    PowerValues();
    ghost var w := s.Written();
    EncodeConstSize(s, ConditionValue(p.condition), 4);
    var tmp := [0x80 as bv8];
    OnePattern();
    s.AppendBits(tmp, 1);
    EncodeConstSize(s, Flag(p.delivery.DataIncomplete?), 1);
    EncodeConstSize(s, FileStatusValue(p.fileStatus), 2);
    Regroup4(w, NatBits(ConditionValue(p.condition), 4), [true], NatBits(Flag(p.delivery.DataIncomplete?), 1),
             NatBits(FileStatusValue(p.fileStatus), 2));
  }

  method EncodeAck(s: BitStream, p: Payload)
    requires p.Ack? && s.Valid() && s.Zeroed() && s.HasRoom(20)
    modifies s, s.buf
    ensures s.Valid() && s.Zeroed() && s.Written() == old(s.Written()) + BodyBits(p)
  {
    hide NatBits, Zeros, Pow2, BitStream.Bits, BitStream.Written, BitStream.Zeroed;
    PowerValues();
    ghost var w := s.Written();
    EncodeConstSize8(s, p.directive);
    EncodeConstSize(s, Flag(p.subtype.AckFinished?), 4);
    EncodeConstSize(s, ConditionValue(p.condition), 4);
    AppendZeros(s, 2);
    EncodeConstSize(s, AckStatusValue(p.status), 2);
    Regroup5(w, NatBits(p.directive, 8), NatBits(Flag(p.subtype.AckFinished?), 4), NatBits(ConditionValue(p.condition), 4),
             Zeros(2), NatBits(AckStatusValue(p.status), 2));
  }

  /** A length byte and the bytes of a name. */
  method EncodeName(s: BitStream, name: seq<bv8>)
    requires |name| < 0x100 && s.Valid() && s.Zeroed() && s.HasRoom(8 + 8 * |name|)
    modifies s, s.buf
    ensures s.Valid() && s.Zeroed() && s.Pos() == old(s.Pos()) + 8 + 8 * |name|
    ensures s.Written() == old(s.Written()) + NatBits(|name|, 8) + BitsOf(name)
  {
    hide NatBits, BitsOf, BitStream.Bits, BitStream.Written, BitStream.Zeroed, Extends;
    EncodeConstSize8(s, |name|);
    var _ := s.EncodeOctetString_no_length(name);
  }

  method EncodeMetadata(s: BitStream, p: Payload)
    requires p.Metadata? && |p.sourceName| <= 128 && |p.destinationName| <= 128
    requires s.Valid() && s.Zeroed() && s.HasRoom(56 + 8 * |p.sourceName| + 8 * |p.destinationName|)
    modifies s, s.buf
    ensures s.Valid() && s.Zeroed() && s.Written() == old(s.Written()) + BodyBits(p)
  {
    hide NatBits, BitsOf, Zeros, Pow2, BitStream.Bits, BitStream.Pos, BitStream.Written, BitStream.Zeroed;
    PowerValues();
    ghost var w := s.Written();
    var checksumType := if p.checksumType.Modular? then 0 else 15;
    AppendZeros(s, 1);
    EncodeConstSize(s, Flag(p.closure.NotRequested?), 1);
    AppendZeros(s, 2);
    EncodeConstSize(s, checksumType, 4);
    EncodeBigEndian(s, p.size, 4);
    EncodeName(s, p.sourceName);
    EncodeName(s, p.destinationName);
    Regroup9(w, Zeros(1), NatBits(Flag(p.closure.NotRequested?), 1), Zeros(2), NatBits(checksumType, 4), NatBits(p.size, 32),
             NatBits(|p.sourceName|, 8), BitsOf(p.sourceName), NatBits(|p.destinationName|, 8), BitsOf(p.destinationName));
  }

  method EncodeFileData(s: BitStream, p: Payload) returns (ok: bool)
    requires p.FileData? && s.Valid() && s.Zeroed() && s.HasRoom(48)
    modifies s, s.buf
    ensures ok == old(s.HasRoom(48 + 8 * |p.data|))
    ensures ok ==> s.Valid() && s.Zeroed() && s.Written() == old(s.Written()) + BodyBits(p)
  {
    hide NatBits, BitsOf, BitStream.Bits, BitStream.Pos, BitStream.Written, BitStream.Zeroed, Extends;
    ghost var w := s.Written();
    EncodeBigEndian(s, p.offset, 4);
    EncodeBigEndian(s, |p.data|, 2);
    ok := s.EncodeOctetString_no_length(p.data);
    Regroup3(w, NatBits(p.offset, 32), NatBits(|p.data|, 16), BitsOf(p.data));
  }

  /** The payload goes to a cleared buffer of its own, to learn its length. */
  method EncodePayload(s: BitStream, p: Payload)
    requires ValidPayload(p) && s.Valid() && s.Zeroed() && s.Pos() == 0 && s.HasRoom(8 * PAYLOAD_BYTES)
    modifies s, s.buf
    ensures s.Valid() && s.Zeroed() && s.Written() == PayloadBits(p)
  {
    hide NatBits, BodyBits, BitStream.Bits, BitStream.Written, BitStream.Zeroed, BitStream.Pos;
    ghost var w := s.Written();
    if p.FileData? {
      var _ := EncodeFileData(s, p);
    } else {
      var code := match p case Eof(_, _, _) => 4 case Finished(_, _, _) => 5 case Ack(_, _, _, _) => 6 case _ => 7;
      EncodeConstSize8(s, code);
      match p
      case Eof(_, _, _) => EncodeEof(s, p);
      case Finished(_, _, _) => EncodeFinished(s, p);
      case Ack(_, _, _, _) => EncodeAck(s, p);
      case Metadata(_, _, _, _, _) => EncodeMetadata(s, p);
      Regroup(w, NatBits(code, 8), BodyBits(p));
    }
    FromNothing(w, PayloadBits(p));
  }

  lemma FromNothing<T>(w: seq<T>, x: seq<T>)
    ensures w == [] ==> w + x == x
  {}

  /** The whole bytes of a zero-tailed buffer that cover the written bits. */
  lemma WholeBytes(s: seq<bv8>, pos: nat, n: nat)
    requires pos <= 8 * |s| && ZeroFrom(BitsOf(s), pos) && n == (pos + 7) / 8 && n <= |s|
    ensures BitsOf(s[..n]) == PadToByte(BitsOf(s)[..pos])
  {
    hide BitsOf;
    BitsOfSlice(s, 0, n);
    assert s[0..n] == s[..n];
    var x := BitsOf(s);
    forall i | pos <= i < 8 * n ensures !x[i] { assert x[i] == x[pos..][i - pos]; }
  }

  /** Encodes the payload to a temporary buffer and takes the whole bytes it fills. */
  method PayloadBytes(p: Payload) returns (bytes: seq<bv8>)
    requires ValidPayload(p)
    ensures |bytes| == PayloadLength(p) && BitsOf(bytes) == PadToByte(PayloadBits(p))
  {
    hide BitsOf, PayloadBits, PadToByte, Zeros;
    var arr := new bv8[PAYLOAD_BYTES];
    var bitStrm := new BitStream.Init(arr, PAYLOAD_BYTES);
    EncodePayload(bitStrm, p);
    var length := if bitStrm.currentBit == 0 then bitStrm.currentByte else bitStrm.currentByte + 1;
    assert arr[..PAYLOAD_BYTES] == arr[..];
    WholeBytes(arr[..], bitStrm.Pos(), length);
    bytes := arr[..length];
    assert bytes == arr[..][..length];
  }

  method EncodeIds(s: BitStream, h: Header)
    requires s.Valid() && s.Zeroed() && s.HasRoom(8 * (|h.source| + |h.seqNumber| + |h.destination|))
    modifies s, s.buf
    ensures s.Valid() && s.Zeroed() && s.Pos() == old(s.Pos()) + 8 * (|h.source| + |h.seqNumber| + |h.destination|)
    ensures s.Written() == old(s.Written()) + (BitsOf(h.source) + (BitsOf(h.seqNumber) + BitsOf(h.destination)))
  {
    hide BitsOf, BitStream.Bits, BitStream.Written, BitStream.Zeroed, BitStream.Pos, Extends;
    ghost var w := s.Written();
    var _ := s.EncodeOctetString_no_length(h.source);
    var _ := s.EncodeOctetString_no_length(h.seqNumber);
    var _ := s.EncodeOctetString_no_length(h.destination);
    Regroup3(w, BitsOf(h.source), BitsOf(h.seqNumber), BitsOf(h.destination));
  }

  method EncodePdu(p: Pdu, s: BitStream) returns (ok: bool)
    requires s.Valid() && s.Zeroed() && s.HasRoom(8 * PDU_BYTES)
    modifies s, s.buf
    ensures ok == Encodable(p)
    ensures ok ==> s.Valid() && s.Zeroed() && s.Written() == old(s.Written()) + PduBits(p)
  {
    hide NatBits, BitsOf, FlagBits, LengthBits, PayloadBits, PadToByte, Extends, ZeroFrom, ValidPayload, Pow2,
         BitStream.Bits, BitStream.Written, BitStream.Zeroed, BitStream.Pos;
    ok := IsConstraintValid(p);
    if !ok {
      return;
    }
    ghost var w := s.Written();
    var h := p.header;
    EncodeFlags(s, h, p.payload.FileData?);
    var bytes := PayloadBytes(p.payload);
    PayloadSize(p.payload);
    EncodeBigEndian(s, |bytes|, 2);
    if |h.destination| != |h.source| {
      return false;
    }
    EncodeLengths(s, |h.destination|, |h.seqNumber|);
    EncodeIds(s, h);
    var _ := s.EncodeOctetString_no_length(bytes);
    Regroup5(w, FlagBits(h, p.payload.FileData?), NatBits(|bytes|, 16), LengthBits(|h.source|, |h.seqNumber|),
             BitsOf(h.source) + (BitsOf(h.seqNumber) + BitsOf(h.destination)), BitsOf(bytes));
    RegroupHeader(FlagBits(h, p.payload.FileData?), NatBits(|bytes|, 16), LengthBits(|h.source|, |h.seqNumber|),
                  BitsOf(h.source) + (BitsOf(h.seqNumber) + BitsOf(h.destination)), BitsOf(bytes));
  }

  lemma RegroupHeader<T>(a: seq<T>, b: seq<T>, c: seq<T>, d: seq<T>, e: seq<T>)
    ensures a + (b + (c + (d + e))) == (a + (b + (c + d))) + e
  {}
}

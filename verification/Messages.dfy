/** Messages to user: directory listing requests and responses and originating transaction ids, as TLVs
    behind a Metadata PDU (dataview/dataview.c). */
module Messages {
  import opened BitSequences
  import opened BitStreams
  import opened Integers
  import opened PduDecoder
  import opened PduEncoder
  import opened Pdus
  import opened Wire

  const MAX_MESSAGES: nat := 2   // MAX_NUMBER_OF_MESSAGES_TO_USER
  const MAX_NAME: nat := 120     // MAX_LISTING_FILE_NAME_SIZE
  const VALUE_BYTES: nat := 248  // cfdpMessageToUserWithHeader_REQUIRED_BYTES_FOR_ACN_ENCODING
  const TLV_BYTES: nat := 250    // cfdpTLV_REQUIRED_BYTES_FOR_ACN_ENCODING
  const IDENTIFIER: seq<bv8> := [0x63, 0x66, 0x64, 0x70]

  datatype Message =
    | ListingRequest(directory: seq<bv8>, file: seq<bv8>)
    | ListingResponse(successful: bool, directory: seq<bv8>, file: seq<bv8>)
    | OriginatingId(source: seq<bv8>, seqNumber: seq<bv8>)

  /** cfdpTLV_IsConstraintValid */
  predicate Fits(m: Message) {
    if m.OriginatingId? then 1 <= |m.source| <= 7 && 1 <= |m.seqNumber| <= 7
    else |m.directory| <= MAX_NAME && |m.file| <= MAX_NAME
  }

  function KindOf(m: Message): nat {
    match m case OriginatingId(_, _) => 10 case ListingRequest(_, _) => 16 case ListingResponse(_, _, _) => 17
  }

  // ---------- layout ----------

  ghost function NamesBits(directory: seq<bv8>, file: seq<bv8>): (r: seq<bool>)
    ensures |r| == 8 * (2 + |directory| + |file|)
  {
    NatBits(|directory|, 8) + (BitsOf(directory) + (NatBits(|file|, 8) + BitsOf(file)))
  }

  ghost function MessageBits(m: Message): (r: seq<bool>)
    requires Fits(m)
    ensures |r| == 8 * (ValueLength(m) - 5)
  {
    match m
    case OriginatingId(source, seqNumber) => LengthBits(|source|, |seqNumber|) + (BitsOf(source) + BitsOf(seqNumber))
    case ListingRequest(directory, file) => NamesBits(directory, file)
    case ListingResponse(successful, directory, file) => NatBits(Flag(!successful), 1) + (Zeros(7) + NamesBits(directory, file))
  }

  function ValueLength(m: Message): (r: nat)
    requires Fits(m)
    ensures r <= VALUE_BYTES
  {
    match m
    case OriginatingId(source, seqNumber) => 6 + |source| + |seqNumber|
    case ListingRequest(directory, file) => 7 + |directory| + |file|
    case ListingResponse(_, directory, file) => 8 + |directory| + |file|
  }

  ghost function ValueBits(m: Message): (r: seq<bool>)
    requires Fits(m)
    ensures |r| == 8 * ValueLength(m)
  {
    BitsOf(IDENTIFIER) + (NatBits(KindOf(m), 8) + MessageBits(m))
  }

  ghost function TlvBits(m: Message): (r: seq<bool>)
    requires Fits(m)
    ensures |r| == 8 * (2 + ValueLength(m))
  {
    NatBits(2, 8) + (NatBits(ValueLength(m), 8) + ValueBits(m))
  }

  ghost function ListBits(ms: seq<Message>): (r: seq<bool>)
    requires forall i | 0 <= i < |ms| :: Fits(ms[i])
  {
    if ms == [] then [] else TlvBits(ms[0]) + ListBits(ms[1..])
  }

  lemma {:induction false} ListSize(ms: seq<Message>)
    requires forall i | 0 <= i < |ms| :: Fits(ms[i])
    ensures |ListBits(ms)| % 8 == 0 && |ListBits(ms)| <= 8 * TLV_BYTES * |ms|
  {
    hide TlvBits;
    if ms != [] { ListSize(ms[1..]); }
  }

  lemma {:induction false} ListAppend(ms: seq<Message>, m: Message)
    requires Fits(m) && forall i | 0 <= i < |ms| :: Fits(ms[i])
    ensures ListBits(ms + [m]) == ListBits(ms) + TlvBits(m)
  {
    hide TlvBits;
    if ms == [] {
      assert ms + [m] == [m] && [m][1..] == [];
    } else {
      assert (ms + [m])[1..] == ms[1..] + [m];
      ListAppend(ms[1..], m);
    }
  }

  // ---------- parsing ----------

  ghost function GetOriginatingId(x: seq<bool>, pos: nat): (r: Read<Message>)
    ensures r.Got? ==> Fits(r.value)
  {
    var (lengths, pos) :- DecodeLengths(x, pos);
    if !(1 <= lengths.0 <= 7) then Failed else
    var (source, pos) :- GetBytes(x, pos, lengths.0);
    if !(1 <= lengths.1 <= 7) then Failed else
    var (seqNumber, pos) :- GetBytes(x, pos, lengths.1);
    Got(OriginatingId(source, seqNumber), pos)
  }

  ghost function GetNames(x: seq<bool>, pos: nat): (r: Read<(seq<bv8>, seq<bv8>)>)
    ensures r.Got? ==> |r.value.0| <= MAX_NAME && |r.value.1| <= MAX_NAME
  {
    var (directory, pos) :- GetName(x, pos, MAX_NAME);
    var (file, pos) :- GetName(x, pos, MAX_NAME);
    Got((directory, file), pos)
  }

  ghost function GetRequest(x: seq<bool>, pos: nat): Read<Message> {
    var (names, pos) :- GetNames(x, pos);
    Got(ListingRequest(names.0, names.1), pos)
  }

  ghost function GetResponse(x: seq<bool>, pos: nat): Read<Message> {
    var (code, pos) :- GetNat(x, pos, 1);
    var (_, pos) :- GetPattern(x, pos, Zeros(7));
    var (names, pos) :- GetNames(x, pos);
    Got(ListingResponse(code == 0, names.0, names.1), pos)
  }

  ghost function GetValue(x: seq<bool>): (r: Read<Message>)
    ensures r.Got? ==> Fits(r.value)
  {
    var (_, pos) :- GetPattern(x, 0, BitsOf(IDENTIFIER));
    var (kind, pos) :- GetNat(x, pos, 8);
    if kind == 10 then GetOriginatingId(x, pos)
    else if kind == 16 then GetRequest(x, pos)
    else if kind == 17 then GetResponse(x, pos)
    else Failed
  }

  /** The value is parsed from a cleared buffer of VALUE_BYTES into which it is copied. */
  ghost function GetTlv(x: seq<bool>, pos: nat): (r: Read<Message>)
    ensures r.Got? ==> Fits(r.value)
  {
    var (tag, pos) :- GetNat(x, pos, 8);
    if tag != 2 then Failed else
    var (length, pos) :- GetNat(x, pos, 8);
    if length > VALUE_BYTES || pos + 8 * length > |x| then Failed else
    match GetValue(x[pos..pos + 8 * length] + Zeros(8 * (VALUE_BYTES - length)))
    case Failed => Failed
    case Got(m, _) => Got(m, pos + 8 * length)
  }

  /** The messages from byte position pos / 8 on, while there are bytes and at most n of them; the first
      one that does not decode ends the list. */
  ghost function GetList(x: seq<bool>, pos: nat, size: nat, n: nat): (r: seq<Message>)
    ensures |r| <= n && forall i | 0 <= i < |r| :: Fits(r[i])
    decreases n
  {
    if n == 0 || pos / 8 >= size then []
    else
      match GetTlv(x, pos)
      case Failed => []
      case Got(m, p) => [m] + GetList(x, p, size, n - 1)
  }

  /** Header, directive code, and the Metadata fields. */
  function StartOffset(p: Pdu): nat
    requires p.payload.Metadata?
  {
    5 + |p.header.source| + |p.header.destination| + |p.header.seqNumber|
    + 7 + |p.payload.sourceName| + |p.payload.destinationName|
  }

  // ---------- round trip ----------

  lemma NamesRoundTrip(x: seq<bool>, pos: nat, directory: seq<bv8>, file: seq<bv8>)
    requires |directory| <= MAX_NAME && |file| <= MAX_NAME && Holds(x, pos, NamesBits(directory, file))
    ensures GetNames(x, pos) == Got((directory, file), pos + 8 * (2 + |directory| + |file|))
  {
    hide Holds, NatBits, BitsOf, GetName;
    var p3 := NatBits(|file|, 8) + BitsOf(file);
    NameThen(x, pos, directory, MAX_NAME, p3);
    assert p3 == NatBits(|file|, 8) + (BitsOf(file) + []);
    NameThen(x, pos + 8 + 8 * |directory|, file, MAX_NAME, []);
  }

  lemma OriginatingIdRoundTrip(x: seq<bool>, pos: nat, m: Message)
    requires m.OriginatingId? && Fits(m) && Holds(x, pos, MessageBits(m))
    ensures GetOriginatingId(x, pos) == Got(m, pos + |MessageBits(m)|)
  {
    hide Holds, LengthBits, BitsOf, DecodeLengths, GetBytes;
    var e, n := |m.source|, |m.seqNumber|;
    HoldsBoth(x, pos, LengthBits(e, n), BitsOf(m.source) + BitsOf(m.seqNumber));
    LengthsRoundTrip(x, pos, e, n);
    BytesThen(x, pos + 8, m.source, BitsOf(m.seqNumber));
    GotBytes(x, pos + 8 + 8 * e, m.seqNumber);
  }

  lemma ResponseRoundTrip(x: seq<bool>, pos: nat, m: Message)
    requires m.ListingResponse? && Fits(m) && Holds(x, pos, MessageBits(m))
    ensures GetResponse(x, pos) == Got(m, pos + |MessageBits(m)|)
  {
    hide Holds, NatBits, NamesBits, Zeros, GetNat, GetPattern, GetNames, Pow2;
    PowerValues();
    var p2 := NamesBits(m.directory, m.file);
    NatThen(x, pos, Flag(!m.successful), 1, Zeros(7) + p2);
    PatternThen(x, pos + 1, Zeros(7), p2);
    NamesRoundTrip(x, pos + 8, m.directory, m.file);
  }

  lemma ValueRoundTrip(x: seq<bool>, m: Message)
    requires Fits(m) && Holds(x, 0, ValueBits(m))
    ensures GetValue(x) == Got(m, |ValueBits(m)|)
  {
    hide Holds, NatBits, BitsOf, GetNat, GetPattern, GetNames, NamesBits, GetOriginatingId, GetResponse, MessageBits;
    PatternThen(x, 0, BitsOf(IDENTIFIER), NatBits(KindOf(m), 8) + MessageBits(m));
    ByteThen(x, 32, KindOf(m), MessageBits(m));
    match m
    case OriginatingId(_, _) => OriginatingIdRoundTrip(x, 40, m);
    case ListingResponse(_, _, _) => ResponseRoundTrip(x, 40, m);
    case ListingRequest(directory, file) => RequestBits(m); NamesRoundTrip(x, 40, directory, file);
  }

  lemma RequestBits(m: Message)
    requires m.ListingRequest? && Fits(m)
    ensures MessageBits(m) == NamesBits(m.directory, m.file)
  {}

  lemma TlvRoundTrip(x: seq<bool>, pos: nat, m: Message, rest: seq<bool>)
    requires Fits(m) && Holds(x, pos, TlvBits(m) + rest)
    ensures GetTlv(x, pos) == Got(m, pos + |TlvBits(m)|) && Holds(x, pos + |TlvBits(m)|, rest)
  {
    hide NatBits, BitsOf, GetNat, GetValue, ValueBits, Holds, Pow2;
    var n, v := ValueLength(m), ValueBits(m);
    HoldsBoth(x, pos, TlvBits(m), rest);
    ByteThen(x, pos, 2, NatBits(n, 8) + v);
    ByteThen(x, pos + 8, n, v);
    Copied0(x, pos + 16, v, 8 * (VALUE_BYTES - n));
    ValueRoundTrip(x[pos + 16..pos + 16 + 8 * n] + Zeros(8 * (VALUE_BYTES - n)), m);
  }

  lemma Copied0(x: seq<bool>, pos: nat, v: seq<bool>, n: nat)
    requires Holds(x, pos, v)
    ensures pos + |v| <= |x| && Holds(x[pos..pos + |v|] + Zeros(n), 0, v)
  {}

  /** Lists of messages are read back whole. */
  lemma {:induction false} ListRoundTrip(x: seq<bool>, pos: nat, ms: seq<Message>, size: nat, n: nat)
    requires forall i | 0 <= i < |ms| :: Fits(ms[i])
    requires |ms| <= n && pos % 8 == 0 && Holds(x, pos, ListBits(ms)) && pos + |ListBits(ms)| == 8 * size
    ensures GetList(x, pos, size, n) == ms
    decreases |ms|
  {
    hide GetTlv, TlvBits, Holds;
    if ms != [] {
      TlvRoundTrip(x, pos, ms[0], ListBits(ms[1..]));
      ListRoundTrip(x, pos + |TlvBits(ms[0])|, ms[1..], size, n - 1);
    }
  }

  /** The offset the receiver computes is where the sender's Metadata encoding ends. */
  lemma StartOffsetIsEnd(p: Pdu)
    requires Encodable(p) && p.payload.Metadata?
    ensures 8 * StartOffset(p) == |PduBits(p)|
  {
    hide HeaderBits, NatBits, BitsOf, Zeros;
    PduBitsWhole(p);
  }

  /** Up to two messages are found behind the Metadata PDU as they were written, in order. */
  lemma MessagesArrive(p: Pdu, ms: seq<Message>)
    requires Encodable(p) && p.payload.Metadata? && |ms| <= MAX_MESSAGES
    requires forall i | 0 <= i < |ms| :: Fits(ms[i])
    ensures var x := PduBits(p) + ListBits(ms);
      && DecodePdu(x, 0) == Got(p, 8 * StartOffset(p))
      && GetList(x, 8 * StartOffset(p), |x| / 8, MAX_MESSAGES) == ms
  {
    hide PduBits, ListBits, DecodePdu, GetList, Holds;
    var x := PduBits(p) + ListBits(ms);
    StartOffsetIsEnd(p);
    ListSize(ms);
    WholeHolds(x);
    HoldsBoth(x, 0, PduBits(p), ListBits(ms));
    PduRoundTrip(x, 0, p);
    ListRoundTrip(x, |PduBits(p)|, ms, |x| / 8, MAX_MESSAGES);
  }

  // ---------- writing ----------

  lemma IdentifierBits()
    ensures BitsOf([0x63, 0x66, 0x64, 0x70])[..32] == BitsOf(IDENTIFIER)
  {}

  method EncodeNames(s: BitStream, directory: seq<bv8>, file: seq<bv8>)
    requires |directory| <= MAX_NAME && |file| <= MAX_NAME
    requires s.Valid() && s.Zeroed() && s.HasRoom(|NamesBits(directory, file)|)
    modifies s, s.buf
    ensures s.Valid() && s.Zeroed() && s.Written() == old(s.Written()) + NamesBits(directory, file)
  {
    hide NatBits, BitsOf, BitStream.Written, BitStream.Zeroed;
    ghost var w := s.Written();
    EncodeName(s, directory);
    EncodeName(s, file);
    Regroup4(w, NatBits(|directory|, 8), BitsOf(directory), NatBits(|file|, 8), BitsOf(file));
  }

  method EncodeOriginatingId(s: BitStream, m: Message)
    requires m.OriginatingId? && Fits(m) && s.Valid() && s.Zeroed() && s.HasRoom(|MessageBits(m)|)
    modifies s, s.buf
    ensures s.Valid() && s.Zeroed() && s.Written() == old(s.Written()) + MessageBits(m)
  {
    hide LengthBits, BitsOf, Extends, BitStream.Bits, BitStream.Pos, BitStream.Written, BitStream.Zeroed;
    ghost var w := s.Written();
    EncodeLengths(s, |m.source|, |m.seqNumber|);
    var _ := s.EncodeOctetString_no_length(m.source);
    var _ := s.EncodeOctetString_no_length(m.seqNumber);
    Regroup3(w, LengthBits(|m.source|, |m.seqNumber|), BitsOf(m.source), BitsOf(m.seqNumber));
  }

  method EncodeResponse(s: BitStream, m: Message)
    requires m.ListingResponse? && Fits(m) && s.Valid() && s.Zeroed() && s.HasRoom(|MessageBits(m)|)
    modifies s, s.buf
    ensures s.Valid() && s.Zeroed() && s.Written() == old(s.Written()) + MessageBits(m)
  {
    hide NatBits, Zeros, NamesBits, Pow2, BitStream.Bits, BitStream.Pos, BitStream.Written, BitStream.Zeroed;
    PowerValues();
    ghost var w := s.Written();
    EncodeConstSize(s, Flag(!m.successful), 1);
    AppendZeros(s, 7);
    EncodeNames(s, m.directory, m.file);
    Regroup3(w, NatBits(Flag(!m.successful), 1), Zeros(7), NamesBits(m.directory, m.file));
  }

  method EncodeValue(s: BitStream, m: Message)
    requires Fits(m) && s.Valid() && s.Zeroed() && s.HasRoom(|ValueBits(m)|)
    modifies s, s.buf
    ensures s.Valid() && s.Zeroed() && s.Written() == old(s.Written()) + ValueBits(m)
  {
    hide NatBits, BitsOf, NamesBits, MessageBits, Extends, ZeroFrom, BitStream.Bits, BitStream.Written, BitStream.Zeroed;
    ghost var w := s.Written();
    var tmp := [0x63 as bv8, 0x66, 0x64, 0x70];
    IdentifierBits();
    s.AppendBits(tmp, 32);
    EncodeConstSize8(s, KindOf(m));
    match m {
      case OriginatingId(_, _) => EncodeOriginatingId(s, m);
      case ListingResponse(_, _, _) => EncodeResponse(s, m);
      case ListingRequest(directory, file) => RequestBits(m); EncodeNames(s, directory, file);
    }
    Regroup3(w, BitsOf(IDENTIFIER), NatBits(KindOf(m), 8), MessageBits(m));
  }

  /** The value goes to a cleared buffer of its own, to learn its length. */
  method EncodeTlv(s: BitStream, m: Message) returns (ok: bool)
    requires s.Valid() && s.Zeroed() && s.HasRoom(8 * TLV_BYTES)
    modifies s, s.buf
    ensures ok == Fits(m)
    ensures s.Valid() && s.Zeroed() && s.Written() == old(s.Written()) + (if ok then TlvBits(m) else [])
  {
    hide NatBits, BitsOf, ValueBits, Extends, BitStream.Bits, BitStream.Written, BitStream.Zeroed, BitStream.Pos;
    ghost var w := s.Written();
    ok := Fits(m);
    if !ok {
      return;
    }
    var value := ValueBytes(m);
    EncodeConstSize8(s, 2);
    EncodeConstSize8(s, |value|);
    var _ := s.EncodeOctetString_no_length(value);
    Regroup3(w, NatBits(2, 8), NatBits(|value|, 8), ValueBits(m));
  }

  method LengthInBytes(s: BitStream) returns (n: nat)
    requires s.Valid()
    ensures n == (s.Pos() + 7) / 8
  {
    n := if s.currentBit == 0 then s.currentByte else s.currentByte + 1;
  }

  method ValueBytes(m: Message) returns (bytes: seq<bv8>)
    requires Fits(m)
    ensures |bytes| == ValueLength(m) && BitsOf(bytes) == ValueBits(m)
  {
    hide BitsOf, ValueBits, Zeros, ZeroFrom;
    var arr := new bv8[VALUE_BYTES];
    var bitStrm := new BitStream.Init(arr, VALUE_BYTES);
    EncodeValue(bitStrm, m);
    var length := LengthInBytes(bitStrm);
    FromNothing([], ValueBits(m));
    WrittenBytes(bitStrm);
    bytes := arr[..length];
  }

  lemma NothingListed()
    ensures ListBits([]) == []
  {}

  // ---------- reading ----------

  method ReadNames(s: BitStream) returns (r: Read<(seq<bv8>, seq<bv8>)>)
    requires s.Valid()
    modifies s
    ensures r == GetNames(old(s.Bits()), old(s.Pos()))
    ensures r.Got? ==> s.Valid() && s.Bits() == old(s.Bits()) && s.Pos() == r.pos
  {
    hide BitStream.Bits, GetName;
    var directory :- ReadName(s, MAX_NAME);
    var file :- ReadName(s, MAX_NAME);
    r := Got((directory.0, file.0), s.Pos());
  }

  method ReadOriginatingId(s: BitStream) returns (r: Read<Message>)
    requires s.Valid() && InMemory(s, 8)
    modifies s
    ensures r == GetOriginatingId(old(s.Bits()), old(s.Pos()))
  {
    hide BitStream.Bits, DecodeLengths, GetBytes, BitStream.Pos;
    var lengths :- ReadLengths(s);
    if !(1 <= lengths.0.0 <= 7) {
      return Failed;
    }
    var source :- ReadBytes(s, lengths.0.0);
    if !(1 <= lengths.0.1 <= 7) {
      return Failed;
    }
    var seqNumber :- ReadBytes(s, lengths.0.1);
    r := Got(OriginatingId(source.0, seqNumber.0), s.Pos());
  }

  method ReadResponse(s: BitStream) returns (r: Read<Message>)
    requires s.Valid() && InMemory(s, 8)
    modifies s
    ensures r == GetResponse(old(s.Bits()), old(s.Pos()))
  {
    hide BitStream.Bits, NatAt, GetPattern, GetNames, BitStream.Pos;
    var code :- ReadNat(s, 1);
    var _ :- ReadZeros(s, 7);
    var names :- ReadNames(s);
    r := Got(ListingResponse(code.0 == 0, names.0.0, names.0.1), s.Pos());
  }

  method ReadValue(s: BitStream) returns (r: Read<Message>)
    requires s.Valid() && s.Pos() == 0 && InMemory(s, 48)
    modifies s
    ensures r == GetValue(old(s.Bits()))
  {
    hide BitStream.Bits, NatAt, GetNames, GetOriginatingId, GetResponse, BitStream.Pos, BitsOf;
    var _ :- ReadIdentifier(s);
    var kind :- ReadByteNat(s);
    if kind.0 == 10 {
      r := ReadOriginatingId(s);
    } else if kind.0 == 16 {
      var names :- ReadNames(s);
      r := Got(ListingRequest(names.0.0, names.0.1), s.Pos());
    } else if kind.0 == 17 {
      r := ReadResponse(s);
    } else {
      r := Failed;
    }
  }

  method ReadIdentifier(s: BitStream) returns (r: Read<()>)
    requires s.Valid() && InMemory(s, 32)
    modifies s
    ensures r == GetPattern(old(s.Bits()), old(s.Pos()), BitsOf(IDENTIFIER))
    ensures r.Got? ==> s.Valid() && s.Bits() == old(s.Bits()) && s.Pos() == r.pos
  {
    hide BitStream.Bits, BitsOf;
    var tmp := [0x63 as bv8, 0x66, 0x64, 0x70];
    IdentifierBits();
    var ok, matches := ReadBitPattern(s, tmp, 32);
    r := if ok && matches then Got((), s.Pos()) else Failed;
  }

  method DecodeTlv(s: BitStream) returns (r: Read<Message>)
    requires s.Valid()
    modifies s
    ensures r == GetTlv(old(s.Bits()), old(s.Pos()))
    ensures r.Got? ==> s.Valid() && s.Bits() == old(s.Bits()) && s.Pos() == r.pos
  {
    hide BitStream.Bits, GetNat, GetValue, BitStream.Pos, BitsOf, Zeros, BytesAt;
    ghost var x := s.Bits();
    var tag :- ReadByteNat(s);
    if tag.0 != 2 {
      return Failed;
    }
    var length :- ReadByteNat(s);
    if length.0 > VALUE_BYTES {
      return Failed;
    }
    ghost var p := s.Pos();
    var bytes :- ReadBytes(s, length.0);
    BytesAtBits(x, p, length.0);
    var arr := new bv8[VALUE_BYTES];
    var bitStrm := new BitStream.Init(arr, VALUE_BYTES);
    forall j | 0 <= j < length.0 { arr[j] := bytes.0[j]; }
    PaddedBits(arr[..], bytes.0);
    assert arr[..VALUE_BYTES] == arr[..];
    assert bitStrm.Bits() == x[p..p + 8 * length.0] + Zeros(8 * (VALUE_BYTES - length.0)) by { BitsAre(bitStrm); }
    assert bitStrm.Valid() && bitStrm.Pos() == 0;
    var m :- ReadValue(bitStrm);
    r := Got(m.0, s.Pos());
  }
}

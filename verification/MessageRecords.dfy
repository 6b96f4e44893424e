/** Messages to user in memory: the records of a transaction (src/messages_to_user.h), filled by the
    caller of a put, turned into TLVs by src/sender_machine.c, stored by src/cfdp_core.c and looked at by
    src/transaction.c. */
module MessageRecords {
  import opened BitSequences
  import opened BitStreams
  import opened CStrings
  import opened Identifiers
  import opened Integers
  import opened Messages
  import opened PduDecoder
  import opened PduEncoder
  import opened Pdus

  const UNION_BYTES: nat := 248  // sizeof(union message_to_user_union)
  const CODE_BYTES: nat := 4     // the response code, in front of the names of a response
  const DECODED_BYTES: nat := 252 // sizeof(cfdpMessageToUser_unchecked_union)
  const FIELD_BYTES: nat := 124   // sizeof(cfdpListingFileName): a four-byte count and the bytes of a name

  /** The bytes that the members of the union share */
  type Union = u: seq<bv8> | |u| == UNION_BYTES witness seq(UNION_BYTES, _ => 0)

  /** The bytes that the members of a decoded message share */
  type Decoded = u: seq<bv8> | |u| == DECODED_BYTES witness seq(DECODED_BYTES, _ => 0)

  datatype RecordKind = Request | Response | Originating
  datatype Record = Record(kind: RecordKind, memory: Union)

  // ---------- numbers and strings in memory ----------

  function LittleBytes(v: nat, n: nat): (r: seq<bv8>)
    ensures |r| == n
  {
    if n == 0 then [] else [Cast(v)] + LittleBytes(v / 0x100, n - 1)
  }

  function BigBytes(v: nat, n: nat): (r: seq<bv8>)
    ensures |r| == n
  {
    if n == 0 then [] else BigBytes(v / 0x100, n - 1) + [Cast(v)]
  }

  function LittleValue(s: seq<bv8>): nat {
    if s == [] then 0 else s[0] as nat + 0x100 * LittleValue(s[1..])
  }

  function NativeBytes(v: nat, n: nat, little: bool): (r: seq<bv8>)
    ensures |r| == n
  {
    if little then LittleBytes(v, n) else BigBytes(v, n)
  }

  function NativeValue(s: seq<bv8>, little: bool): nat {
    if little then LittleValue(s) else ValueOf(s)
  }

  lemma {:induction false} NativeRoundTrip(v: nat, n: nat, little: bool)
    requires v < Pow256(n)
    ensures NativeValue(NativeBytes(v, n, little), little) == v
  {
    hide Cast;
    if n > 0 {
      CastValue(v);
      NativeRoundTrip(v / 0x100, n - 1, little);
      assert BigBytes(v, n)[..n - 1] == BigBytes(v / 0x100, n - 1);
    }
  }

  /** The number at a place of memory, and that place overwritten */
  function Load(u: seq<bv8>, at: nat, n: nat, little: bool): nat
    requires at + n <= |u|
  {
    NativeValue(u[at..at + n], little)
  }

  function Store(u: seq<bv8>, at: nat, bytes: seq<bv8>): (r: seq<bv8>)
    requires at + |bytes| <= |u|
    ensures |r| == |u|
    ensures forall i | 0 <= i < |u| :: r[i] == if at <= i < at + |bytes| then bytes[i - at] else u[i]
    ensures r[at..at + |bytes|] == bytes
  {
    u[..at] + bytes + u[at + |bytes|..]
  }

  /** What strlen and strcpy see from a place on */
  function StringAt(u: Union, at: nat): seq<bv8>
    requires at <= UNION_BYTES
  {
    UpToZero(u[at..])
  }

  /** strncpy of a name and a zero byte behind it */
  function WithName(u: Union, at: nat, name: seq<bv8>): Union
    requires at + |name| < UNION_BYTES
  {
    Store(Store(u, at, Copied(name)), at + |name|, [0])
  }

  /** The names of a listing request: two arrays of MAX_NAME bytes, the second overwriting a zero byte
      behind the first. */
  function WithNames(u: Union, directory: seq<bv8>, file: seq<bv8>): Union
    requires |directory| <= MAX_NAME && |file| <= MAX_NAME
  {
    WithName(WithName(u, 0, directory), MAX_NAME, file)
  }

  // ---------- from a record to a message ----------

  /** Names end within the union and a response code is one of its two values. */
  predicate Terminated(r: Record, little: bool) {
    match r.kind
    case Request => 0 in r.memory[MAX_NAME..]
    case Response => 0 in r.memory[CODE_BYTES + MAX_NAME..] && Load(r.memory, 0, CODE_BYTES, little) <= 1
    case Originating => true
  }

  /** The sender of transaction (source, seqNumber) turns a record into a message; an originating id is
      always that of its own transaction. */
  function MessageFrom(r: Record, source: nat, seqNumber: nat, little: bool): Message {
    match r.kind
    case Request => ListingRequest(StringAt(r.memory, 0), StringAt(r.memory, MAX_NAME))
    case Response => ListingResponse(Load(r.memory, 0, CODE_BYTES, little) == 0, StringAt(r.memory, CODE_BYTES), StringAt(r.memory, CODE_BYTES + MAX_NAME))
    case Originating => OriginatingId(MinimalBytes(source), MinimalBytes(seqNumber))
  }

  function MessagesFrom(rs: seq<Record>, source: nat, seqNumber: nat, little: bool): (ms: seq<Message>)
    ensures |ms| == |rs| && forall i | 0 <= i < |rs| :: ms[i] == MessageFrom(rs[i], source, seqNumber, little)
  {
    seq(|rs|, i requires 0 <= i < |rs| => MessageFrom(rs[i], source, seqNumber, little))
  }

  method BuildMessage(r: Record, source: nat, seqNumber: nat, little: bool) returns (m: Message)
    requires Terminated(r, little) && source < UINT56 && seqNumber < UINT56
    ensures m == MessageFrom(r, source, seqNumber, little)
  {
    match r.kind {
      case Originating =>
        var ids, numbers := new bv8[7], new bv8[7];
        var n := BytesBigEndian(source, ids);
        var k := BytesBigEndian(seqNumber, numbers);
        m := OriginatingId(ids[..n], numbers[..k]);
      case Request =>
        m := ListingRequest(StringAt(r.memory, 0), StringAt(r.memory, MAX_NAME));
      case Response =>
        m := ListingResponse(Load(r.memory, 0, CODE_BYTES, little) == 0, StringAt(r.memory, CODE_BYTES), StringAt(r.memory, CODE_BYTES + MAX_NAME));
    }
  }

  /** Messages are appended until one does not encode. */
  method AppendMessages(s: BitStream, rs: seq<Record>, source: nat, seqNumber: nat, little: bool) returns (k: nat)
    requires |rs| <= MAX_MESSAGES && forall i | 0 <= i < |rs| :: Terminated(rs[i], little)
    requires source < UINT56 && seqNumber < UINT56
    requires s.Valid() && s.Zeroed() && s.HasRoom(8 * TLV_BYTES * MAX_MESSAGES)
    modifies s, s.buf
    ensures var ms := MessagesFrom(rs, source, seqNumber, little);
      && k <= |ms| && (k < |ms| ==> !Fits(ms[k]))
      && (forall i | 0 <= i < k :: Fits(ms[i]))
      && s.Valid() && s.Zeroed() && s.Written() == old(s.Written()) + ListBits(ms[..k])
  {
    hide TlvBits, ListBits, Extends, ZeroFrom, BitStream.Bits, Terminated, MessageFrom, Fits;
    ghost var w := s.Written();
    ghost var ms := MessagesFrom(rs, source, seqNumber, little);
    k := 0;
    NothingListed();
    while k < |rs|
      invariant k <= |rs| && forall i | 0 <= i < k :: Fits(ms[i])
      invariant s.Valid() && s.Zeroed() && s.Written() == w + ListBits(ms[..k])
    {
      ListSize(ms[..k]);
      var m := BuildMessage(rs[k], source, seqNumber, little);
      var ok := EncodeTlv(s, m);
      if !ok {
        return;
      }
      ListAppend(ms[..k], ms[k]);
      assert ms[..k + 1] == ms[..k] + [ms[k]];
      Regroup(w, ListBits(ms[..k]), TlvBits(ms[k]));
      k := k + 1;
    }
  }

  // ---------- from a message to a record ----------

  /** A decoded name: its count, and as many bytes; those behind them are not written. */
  function WithField(u: Decoded, at: nat, name: seq<bv8>, little: bool): Decoded
    requires at + 4 + |name| <= DECODED_BYTES
  {
    Store(Store(u, at, NativeBytes(|name|, 4, little)), at + 4, name)
  }

  /** A decoded listing request: two names. */
  function DecodedRequest(u: Decoded, directory: seq<bv8>, file: seq<bv8>, little: bool): Decoded
    requires |directory| <= MAX_NAME && |file| <= MAX_NAME
  {
    WithField(WithField(u, 0, directory, little), FIELD_BYTES, file, little)
  }

  /** A decoded listing response: the code in front of two names. */
  function DecodedResponse(u: Decoded, successful: bool, directory: seq<bv8>, file: seq<bv8>, little: bool): Decoded
    requires |directory| <= MAX_NAME && |file| <= MAX_NAME
  {
    WithField(WithField(Store(u, 0, NativeBytes(Flag(!successful), CODE_BYTES, little)), CODE_BYTES, directory, little),
              CODE_BYTES + FIELD_BYTES, file, little)
  }

  /** Count and bytes of the name at a place */
  function FieldCount(u: Decoded, at: nat, little: bool): nat
    requires at + 4 <= DECODED_BYTES
  {
    Load(u, at, 4, little)
  }

  function FieldName(u: Decoded, at: nat, little: bool): (r: seq<bv8>)
    requires at + 4 <= DECODED_BYTES && at + 4 + FieldCount(u, at, little) <= DECODED_BYTES
    ensures |r| == FieldCount(u, at, little)
  {
    u[at + 4..at + 4 + FieldCount(u, at, little)]
  }

  /** The two counts that a request has stay within its arrays. */
  predicate Copyable(u: Decoded, little: bool) {
    FieldCount(u, 0, little) <= MAX_NAME && FieldCount(u, FIELD_BYTES, little) <= MAX_NAME
  }

  /** The names are copied from where a decoded request has them to where the record of a request does. */
  function WithRequestNames(memory: Union, u: Decoded, little: bool): Union
    requires Copyable(u, little)
  {
    WithNames(memory, FieldName(u, 0, little), FieldName(u, FIELD_BYTES, little))
  }

  /** What the message is decoded to; scratch is what that memory held before. */
  function DecodedListing(m: Message, scratch: Decoded, little: bool): Decoded
    requires Fits(m) && !m.OriginatingId?
  {
    match m
    case ListingRequest(directory, file) => DecodedRequest(scratch, directory, file, little)
    case ListingResponse(successful, directory, file) => DecodedResponse(scratch, successful, directory, file, little)
  }

  /** The counts that the copying takes are in range. Those of a request always are (RequestPlaces); of a
      response, the second one is taken from the array of the directory name. */
  predicate CanFill(m: Message, scratch: Decoded, little: bool)
    requires Fits(m)
  {
    m.OriginatingId? || Copyable(DecodedListing(m, scratch, little), little)
  }

  /** The receiver fills a record. For a response, too, it goes by the places of a request, in the decoded
      message and in the record. */
  function Filled(r: Record, m: Message, scratch: Decoded, little: bool): Record
    requires Fits(m) && CanFill(m, scratch, little)
  {
    match m
    case ListingRequest(_, _) => Record(Request, WithRequestNames(r.memory, DecodedListing(m, scratch, little), little))
    case ListingResponse(successful, _, _) =>
      Record(Response, WithRequestNames(Store(r.memory, 0, NativeBytes(Flag(!successful), CODE_BYTES, little)), DecodedListing(m, scratch, little), little))
    case OriginatingId(source, seqNumber) =>
      Record(Originating, Store(Store(r.memory, 0, NativeBytes(ValueOf(source), 8, little)), 8, NativeBytes(ValueOf(seqNumber), 8, little)))
  }

  /** Message by message; scratch(i) is what the i-th is decoded over. */
  predicate CanFillAll(ms: seq<Message>, scratch: nat -> Decoded, little: bool) {
    forall i | 0 <= i < |ms| :: Fits(ms[i]) && CanFill(ms[i], scratch(i), little)
  }

  function FilledAll(rs: seq<Record>, ms: seq<Message>, scratch: nat -> Decoded, little: bool): (r: seq<Record>)
    requires |ms| <= |rs| && CanFillAll(ms, scratch, little)
    ensures |r| == |rs|
  {
    seq(|rs|, i requires 0 <= i < |rs| => if i < |ms| then Filled(rs[i], ms[i], scratch(i), little) else rs[i])
  }

  method AddMessage(rs: array<Record>, i: nat, m: Message, scratch: Decoded, little: bool)
    requires i < rs.Length && Fits(m) && CanFill(m, scratch, little)
    modifies rs
    ensures rs[..] == old(rs[..][i := Filled(rs[i], m, scratch, little)])
  {
    hide WithName, Store, NativeBytes, ValueOf, DecodedListing, FieldName, FieldCount;
    match m {
      case ListingRequest(_, _) =>
        var tlv := DecodedListing(m, scratch, little);
        rs[i] := rs[i].(kind := Request, memory := WithName(rs[i].memory, 0, FieldName(tlv, 0, little)));
        rs[i] := rs[i].(memory := WithName(rs[i].memory, MAX_NAME, FieldName(tlv, FIELD_BYTES, little)));
      case ListingResponse(successful, _, _) =>
        var tlv := DecodedListing(m, scratch, little);
        rs[i] := rs[i].(kind := Response, memory := Store(rs[i].memory, 0, NativeBytes(Flag(!successful), CODE_BYTES, little)));
        rs[i] := rs[i].(memory := WithName(rs[i].memory, 0, FieldName(tlv, 0, little)));
        rs[i] := rs[i].(memory := WithName(rs[i].memory, MAX_NAME, FieldName(tlv, FIELD_BYTES, little)));
      case OriginatingId(source, seqNumber) =>
        var id := BytesToULong(source, |source|);
        var number := BytesToULong(seqNumber, |seqNumber|);
        assert source[..|source|] == source && seqNumber[..|seqNumber|] == seqNumber;
        rs[i] := rs[i].(kind := Originating, memory := Store(rs[i].memory, 0, NativeBytes(id, 8, little)));
        rs[i] := rs[i].(memory := Store(rs[i].memory, 8, NativeBytes(number, 8, little)));
    }
  }

  /** One TLV into the record i */
  method ReadMessage(s: BitStream, rs: array<Record>, i: nat, scratch: Decoded, little: bool) returns (ok: bool)
    requires s.Valid() && i < rs.Length && s.buf as object != rs
    requires var m := GetTlv(s.Bits(), s.Pos()); m.Got? ==> CanFill(m.value, scratch, little)
    modifies s, rs
    ensures var m := GetTlv(old(s.Bits()), old(s.Pos()));
      && ok == m.Got?
      && (ok ==> s.Valid() && s.Bits() == old(s.Bits()) && s.Pos() == m.pos
                 && rs[..] == old(rs[..])[i := Filled(old(rs[i]), m.value, scratch, little)])
      && (!ok ==> rs[..] == old(rs[..]))
  {
    hide BitStream.Bits, GetTlv, Filled, Fits, CanFill;
    var m := DecodeTlv(s);
    ok := m.Got?;
    if ok {
      AddMessage(rs, i, m.value, scratch, little);
    }
  }

  /** decode_tlv_from_metadata_pdu: the cursor is set behind the Metadata PDU, whose fields give the
      offset. */
  method ReadMessages(s: BitStream, p: Pdu, rs: array<Record>, scratch: nat -> Decoded, little: bool) returns (count: nat)
    requires p.payload.Metadata? && s.Valid() && rs.Length == MAX_MESSAGES && s.buf as object != rs
    requires CanFillAll(GetList(s.Bits(), 8 * StartOffset(p), s.count, MAX_MESSAGES), scratch, little)
    modifies s, rs
    ensures var ms := GetList(old(s.Bits()), 8 * StartOffset(p), s.count, MAX_MESSAGES);
      count == |ms| && rs[..] == FilledAll(old(rs[..]), ms, scratch, little)
  {
    hide BitStream.Bits, GetTlv, GetList, FilledAll, Filled, Fits, BitsOf, CanFill, CanFillAll;
    ghost var x, was := s.Bits(), rs[..];
    ghost var all, ms := GetList(x, 8 * StartOffset(p), s.count, MAX_MESSAGES), [];
    count := 0;
    BitsAre(s);
    FilledNone(was, scratch, little);
    s.currentByte := StartOffset(p);
    s.currentBit := 0;
    if s.currentByte <= s.count { BitsAre(s); }
    while count < MAX_MESSAGES && s.currentByte < s.count
      invariant count == |ms| <= MAX_MESSAGES && s.currentBit < 8
      invariant s.Pos() <= 8 * s.count ==> s.Valid() && s.Bits() == x
      invariant all == ms + GetList(x, s.Pos(), s.count, MAX_MESSAGES - count)
      invariant CanFillAll(ms, scratch, little) && rs[..] == FilledAll(was, ms, scratch, little)
      decreases MAX_MESSAGES - count
    {
      ghost var m := GetTlv(x, s.Pos());
      ListSplit(all, ms, x, s.Pos(), s.count, MAX_MESSAGES - count);
      if m.Got? { CanFillAt(all, scratch, count, little); }
      var ok := ReadMessage(s, rs, count, scratch(count), little);
      if !ok {
        return;
      }
      FilledNext(was, ms, m.value, scratch, little);
      ms := ms + [m.value];
      count := count + 1;
    }
    ListSplit(all, ms, x, s.Pos(), s.count, MAX_MESSAGES - count);
  }

  /** A list, of which ms is the part that has been read. */
  lemma ListSplit(all: seq<Message>, ms: seq<Message>, x: seq<bool>, pos: nat, size: nat, n: nat)
    requires all == ms + GetList(x, pos, size, n)
    ensures var m := GetTlv(x, pos);
      if n == 0 || pos / 8 >= size || m.Failed? then all == ms
      else |ms| < |all| && all[|ms|] == m.value && all == ms + [m.value] + GetList(x, m.pos, size, n - 1)
  {
    hide GetTlv;
  }

  lemma CanFillAt(ms: seq<Message>, scratch: nat -> Decoded, i: nat, little: bool)
    requires i < |ms| && CanFillAll(ms, scratch, little)
    ensures Fits(ms[i]) && CanFill(ms[i], scratch(i), little)
  {}

  lemma FilledNone(rs: seq<Record>, scratch: nat -> Decoded, little: bool)
    ensures CanFillAll([], scratch, little) && FilledAll(rs, [], scratch, little) == rs
  {}

  lemma FilledNext(rs: seq<Record>, ms: seq<Message>, m: Message, scratch: nat -> Decoded, little: bool)
    requires |ms| < |rs| && CanFillAll(ms, scratch, little)
    requires Fits(m) && CanFill(m, scratch(|ms|), little)
    ensures CanFillAll(ms + [m], scratch, little)
    ensures FilledAll(rs, ms + [m], scratch, little) == FilledAll(rs, ms, scratch, little)[|ms| := Filled(rs[|ms|], m, scratch(|ms|), little)]
    ensures FilledAll(rs, ms, scratch, little)[|ms|] == rs[|ms|]
  {
    hide Filled, CanFill, Fits;
  }

  // ---------- what arrives ----------

  lemma StringIs(u: Union, at: nat, s: seq<bv8>)
    requires at + |s| <= UNION_BYTES && u[at..at + |s|] == s && 0 !in s && (at + |s| < UNION_BYTES ==> u[at + |s|] == 0)
    ensures StringAt(u, at) == s
  {
    assert u[at..][..|s|] == s;
    UpToZeroIs(u[at..], |s|);
  }

  lemma NameFilled(u: Union, at: nat, name: seq<bv8>)
    requires at + |name| < UNION_BYTES && 0 !in name
    ensures var v := WithName(u, at, name);
      v[..at] == u[..at] && v[at..at + |name|] == name && v[at + |name|] == 0 && v[at + |name| + 1..] == u[at + |name| + 1..]
  {
    CopiedPrefixZero(name);
  }

  lemma FileFilled(u: Union, at: nat, file: seq<bv8>)
    requires |file| <= MAX_NAME && at + |file| < UNION_BYTES && 0 !in file
    ensures var v := WithName(u, at, file); StringAt(v, at) == file && 0 in v[at..]
  {
    hide WithName, StringAt;
    NameFilled(u, at, file);
    var v := WithName(u, at, file);
    assert v[at..][|file|] == 0;
    StringIs(v, at, file);
  }

  lemma DirectoryFilled(u: Union, at: nat, directory: seq<bv8>, file: seq<bv8>)
    requires |directory| <= MAX_NAME && |file| <= MAX_NAME && at + MAX_NAME + |file| < UNION_BYTES && 0 !in directory && 0 !in file
    ensures var v := WithName(WithName(u, at, directory), at + MAX_NAME, file);
      StringAt(v, at) == if |directory| < MAX_NAME then directory else directory + file
  {
    hide WithName, StringAt;
    var u1 := WithName(u, at, directory);
    var v, next := WithName(u1, at + MAX_NAME, file), at + MAX_NAME;
    NameFilled(u, at, directory);
    NameFilled(u1, next, file);
    assert v[..next] == u1[..next];
    SameSlice(v, u1, next, at, at + |directory|);
    if |directory| < MAX_NAME {
      assert v[at + |directory|] == v[..next][at + |directory|];
      assert u1[at + |directory|] == u1[..next][at + |directory|];
      StringIs(v, at, directory);
    } else {
      assert v[at..at + |directory + file|] == v[at..at + |directory|] + v[next..next + |file|];
      StringIs(v, at, directory + file);
    }
  }

  /** The directory name runs on into the file name if it leaves no room for a zero byte. */
  lemma NamesFilled(u: Union, directory: seq<bv8>, file: seq<bv8>)
    requires |directory| <= MAX_NAME && |file| <= MAX_NAME && 0 !in directory && 0 !in file
    ensures var v := WithNames(u, directory, file);
      && StringAt(v, MAX_NAME) == file && 0 in v[MAX_NAME..]
      && StringAt(v, 0) == if |directory| < MAX_NAME then directory else directory + file
  {
    hide WithName, StringAt;
    FileFilled(WithName(u, 0, directory), MAX_NAME, file);
    DirectoryFilled(u, 0, directory, file);
  }

  /** A caller fills a request by strcpy: it is sent as filled exactly when the directory name leaves its
      terminator in place; otherwise it does not encode. */
  lemma FilledRequestIff(u: Union, directory: seq<bv8>, file: seq<bv8>, source: nat, seqNumber: nat, little: bool)
    requires |directory| <= MAX_NAME && |file| <= MAX_NAME && 0 !in directory && 0 !in file
    ensures var r := Record(Request, WithNames(u, directory, file));
      var m := MessageFrom(r, source, seqNumber, little);
      && Terminated(r, little)
      && (m == ListingRequest(directory, file) <==> |directory| < MAX_NAME || file == [])
      && (Fits(m) <==> |directory| < MAX_NAME || file == [])
  {
    hide WithNames, StringAt;
    NamesFilled(u, directory, file);
  }

  /** A caller fills a response: the code, and the names by strcpy. The same holds of it, and its code is
      sent as it is. */
  lemma FilledResponseIff(u: Union, successful: bool, directory: seq<bv8>, file: seq<bv8>, source: nat, seqNumber: nat, little: bool)
    requires |directory| <= MAX_NAME && |file| <= MAX_NAME && 0 !in directory && 0 !in file
    ensures var v := WithName(WithName(Store(u, 0, NativeBytes(Flag(!successful), CODE_BYTES, little)), CODE_BYTES, directory), CODE_BYTES + MAX_NAME, file);
      var m := MessageFrom(Record(Response, v), source, seqNumber, little);
      && Terminated(Record(Response, v), little)
      && (m == ListingResponse(successful, directory, file) <==> |directory| < MAX_NAME || file == [])
      && (Fits(m) <==> |directory| < MAX_NAME || file == [])
  {
    hide WithName, StringAt, NativeBytes, NativeValue, Store;
    var u0 := Store(u, 0, NativeBytes(Flag(!successful), CODE_BYTES, little));
    var u1 := WithName(u0, CODE_BYTES, directory);
    var v := WithName(u1, CODE_BYTES + MAX_NAME, file);
    FileFilled(u1, CODE_BYTES + MAX_NAME, file);
    DirectoryFilled(u0, CODE_BYTES, directory, file);
    CountBytes(Flag(!successful), little);
    NameFilled(u0, CODE_BYTES, directory);
    NameFilled(u1, CODE_BYTES + MAX_NAME, file);
    SameSlice(v, u1, CODE_BYTES + MAX_NAME, 0, 4);
    SameSlice(u1, u0, CODE_BYTES, 0, 4);
  }

  lemma SameSlice(u: seq<bv8>, v: seq<bv8>, n: nat, i: nat, j: nat)
    requires i <= j <= n <= |u| && n <= |v| && u[..n] == v[..n]
    ensures u[i..j] == v[i..j]
  {
    forall k | i <= k < j ensures u[k] == v[k] {
      assert u[k] == u[..n][k] && v[k] == v[..n][k];
    }
  }

  lemma ZeroAt(u: Union, at: nat, n: nat)
    requires at + n < UNION_BYTES && u[at + n] == 0
    ensures |StringAt(u, at)| <= n
  {
    EndsBy(u[at..], n);
  }

  lemma EndsBy(s: seq<bv8>, n: nat)
    requires n < |s| && s[n] == 0
    ensures |UpToZero(s)| <= n
  {
    if n < |UpToZero(s)| { BeforeZero(s, n); }
  }

  /** Where a full array of a record is read as a string, the next array starts with a zero byte. */
  lemma NextIsEmpty(u: Union, at: nat)
    requires at + MAX_NAME < UNION_BYTES && |StringAt(u, at)| == MAX_NAME
    ensures StringAt(u, at + MAX_NAME) == []
  {
    assert u[at..][MAX_NAME] == 0;
    ZeroAt(u, at + MAX_NAME, 0);
  }

  /** A count of at most 120 in memory */
  lemma CountBytes(n: nat, little: bool)
    requires n <= MAX_NAME
    ensures NativeBytes(n, 4, little) == if little then [Cast(n), 0, 0, 0] else [0, 0, 0, Cast(n)]
    ensures NativeValue(NativeBytes(n, 4, little), little) == n && Cast(n) as nat == n
  {
    hide LittleBytes, BigBytes, LittleValue, ValueOf, Pow256, Cast;
    CastValue(n);
    FourBytesEnough();
    NativeRoundTrip(n, 4, little);
    ShortCount(n);
  }

  lemma FourBytesEnough()
    ensures Pow256(4) > MAX_NAME
  {}

  lemma ShortCount(n: nat)
    requires n <= MAX_NAME
    ensures LittleBytes(n, 4) == [Cast(n), 0, 0, 0] && BigBytes(n, 4) == [0, 0, 0, Cast(n)]
  {
    hide Cast;
    CastValue(0);
    assert LittleBytes(0, 3) == [0, 0, 0] && BigBytes(0, 3) == [0, 0, 0];
  }

  lemma FieldRead(u: Decoded, at: nat, name: seq<bv8>, little: bool)
    requires |name| <= MAX_NAME && at + 4 + |name| <= DECODED_BYTES
    ensures var v := WithField(u, at, name, little);
      && v[at..at + 4] == NativeBytes(|name|, 4, little)
      && FieldCount(v, at, little) == |name| && FieldName(v, at, little) == name
      && forall i | 0 <= i < DECODED_BYTES && !(at <= i < at + 4 + |name|) :: v[i] == u[i]
  {
    hide NativeBytes, NativeValue;
    CountBytes(|name|, little);
    assert WithField(u, at, name, little)[at..at + 4] == NativeBytes(|name|, 4, little);
  }

  /** A field depends on its own bytes only. */
  lemma SameField(u: Decoded, v: Decoded, at: nat, little: bool)
    requires at + 4 <= DECODED_BYTES && at + 4 + FieldCount(u, at, little) <= DECODED_BYTES
    requires forall i | at <= i < at + 4 + FieldCount(u, at, little) :: v[i] == u[i]
    ensures FieldCount(v, at, little) == FieldCount(u, at, little) && FieldName(v, at, little) == FieldName(u, at, little)
  {
    hide NativeValue;
    assert v[at..at + 4] == u[at..at + 4];
  }

  /** For a request, the places are right. */
  lemma RequestPlaces(u: Decoded, directory: seq<bv8>, file: seq<bv8>, little: bool)
    requires |directory| <= MAX_NAME && |file| <= MAX_NAME
    ensures var v := DecodedRequest(u, directory, file, little);
      Copyable(v, little) && FieldName(v, 0, little) == directory && FieldName(v, FIELD_BYTES, little) == file
  {
    hide WithField, FieldCount, FieldName;
    var u1 := WithField(u, 0, directory, little);
    FieldRead(u, 0, directory, little);
    FieldRead(u1, FIELD_BYTES, file, little);
    SameField(u1, DecodedRequest(u, directory, file, little), 0, little);
  }

  /** For a response, a request's first count is the code, and behind it comes the directory name's count;
      the second name starts with the file name's count. */
  lemma ResponsePlaces(u: Decoded, successful: bool, directory: seq<bv8>, file: seq<bv8>, little: bool)
    requires |directory| <= MAX_NAME && |file| <= MAX_NAME
    ensures var v := DecodedResponse(u, successful, directory, file, little);
      && FieldCount(v, 0, little) == Flag(!successful)
      && v[4..8] == NativeBytes(|directory|, 4, little)
      && v[128..132] == NativeBytes(|file|, 4, little)
  {
    hide WithField, NativeBytes, NativeValue;
    var u0 := Store(u, 0, NativeBytes(Flag(!successful), CODE_BYTES, little));
    var u1 := WithField(u0, CODE_BYTES, directory, little);
    FieldRead(u0, CODE_BYTES, directory, little);
    FieldRead(u1, CODE_BYTES + FIELD_BYTES, file, little);
    var v := DecodedResponse(u, successful, directory, file, little);
    CountBytes(Flag(!successful), little);
    assert v[0..4] == u0[0..4] == NativeBytes(Flag(!successful), CODE_BYTES, little);
    assert v[4..8] == u1[4..8];
  }

  /** A request that encodes arrives with its names, whatever the receiver's memory held before. */
  lemma RequestArrives(r: Record, stale: Record, scratch: Decoded, source: nat, seqNumber: nat, little: bool)
    requires r.kind.Request? && Fits(MessageFrom(r, source, seqNumber, little))
    ensures var m := MessageFrom(r, source, seqNumber, little);
      && CanFill(m, scratch, little)
      && var v := Filled(stale, m, scratch, little);
      && v.kind == r.kind
      && StringAt(v.memory, 0) == StringAt(r.memory, 0)
      && StringAt(v.memory, MAX_NAME) == StringAt(r.memory, MAX_NAME)
  {
    hide WithNames, DecodedRequest, Copyable, FieldName, FieldCount, StringAt;
    var d, f := StringAt(r.memory, 0), StringAt(r.memory, MAX_NAME);
    RequestPlaces(scratch, d, f, little);
    if |d| == MAX_NAME { NextIsEmpty(r.memory, 0); }
    StringHasNoZero(r.memory, 0); StringHasNoZero(r.memory, MAX_NAME);
    NamesFilled(stale.memory, d, f);
    assert d + [] == d;
  }

  lemma StringHasNoZero(u: Union, at: nat)
    requires at <= UNION_BYTES
    ensures 0 !in StringAt(u, at)
  {}

  /** An originating id arrives, as that of the transaction which carries it. */
  lemma OriginatingIdArrives(r: Record, stale: Record, scratch: Decoded, source: nat, seqNumber: nat, little: bool)
    requires r.kind.Originating? && source < UINT56 && seqNumber < UINT56
    ensures var m := MessageFrom(r, source, seqNumber, little);
      && (Fits(m) <==> source > 0 && seqNumber > 0)
      && (Fits(m) ==> var v := Filled(stale, m, scratch, little);
        && v.kind == r.kind && Load(v.memory, 0, 8, little) == source && Load(v.memory, 8, 8, little) == seqNumber)
  {
    hide NativeBytes, NativeValue, Pow256;
    assert Pow256(8) > UINT56 by { LongEnough(); }
    if source > 0 && seqNumber > 0 {
      IdentifierRoundTrip(source); IdentifierRoundTrip(seqNumber);
      NativeRoundTrip(source, 8, little); NativeRoundTrip(seqNumber, 8, little);
      var v := Filled(stale, MessageFrom(r, source, seqNumber, little), scratch, little).memory;
      assert v[0..8] == NativeBytes(source, 8, little);
      assert v[8..16] == NativeBytes(seqNumber, 8, little);
    }
  }

  lemma LongEnough()
    ensures Pow256(8) > UINT56
  {}

  lemma NameBytes(u: Union, at: nat, name: seq<bv8>, i: nat)
    requires at + |name| < UNION_BYTES && i < UNION_BYTES && !(at <= i < at + |name|)
    ensures WithName(u, at, name)[i] == if i == at + |name| then 0 else u[i]
  {
    hide Copied;
  }

  lemma NamesBytes(u: Union, directory: seq<bv8>, file: seq<bv8>, i: nat)
    requires |directory| <= MAX_NAME && |file| <= MAX_NAME && i < UNION_BYTES
    requires !(i < |directory|) && !(MAX_NAME <= i < MAX_NAME + |file|)
    ensures WithNames(u, directory, file)[i] == if i == |directory| || i == MAX_NAME + |file| then 0 else u[i]
  {
    hide WithName;
    NameBytes(u, 0, directory, i);
    NameBytes(WithName(u, 0, directory), MAX_NAME, file, i);
  }

  lemma FileBytes(u: Union, directory: seq<bv8>, file: seq<bv8>, j: nat)
    requires |directory| <= MAX_NAME && |file| <= MAX_NAME && j < |file|
    ensures WithNames(u, directory, file)[MAX_NAME + j] == Copied(file)[j]
  {
    hide Copied;
  }

  /** Four bytes into a copy of a count there is nothing left of it. */
  lemma CountCopied(name: seq<bv8>, n: nat, little: bool)
    requires n <= MAX_NAME && 4 < |name| && name[..4] == NativeBytes(n, 4, little)
    ensures Copied(name)[4] == 0
  {
    hide NativeBytes, NativeValue, Cast;
    CountBytes(n, little);
    var z := if little then 1 else 0;
    assert name[..4][z] == 0;
    EndsBy(name, z);
  }

  /** Where the record of a response has its names, there is nothing. */
  lemma ResponseNames(u: Union, t: Decoded, n: nat, little: bool)
    requires Copyable(t, little) && FieldCount(t, 0, little) <= 1 && n <= MAX_NAME && t[128..132] == NativeBytes(n, 4, little)
    requires u[CODE_BYTES] == 0 && u[CODE_BYTES + MAX_NAME] == 0
    ensures var v := WithRequestNames(u, t, little); StringAt(v, CODE_BYTES) == [] && StringAt(v, CODE_BYTES + MAX_NAME) == []
  {
    hide StringAt, WithNames, Load, NativeBytes;
    var d, f := FieldName(t, 0, little), FieldName(t, FIELD_BYTES, little);
    var v := WithNames(u, d, f);
    NamesBytes(u, d, f, CODE_BYTES);
    if |f| <= 4 {
      NamesBytes(u, d, f, CODE_BYTES + MAX_NAME);
    } else {
      assert f[..4] == t[128..132];
      CountCopied(f, n, little);
      FileBytes(u, d, f, 4);
    }
    ZeroAt(v, CODE_BYTES, 0); ZeroAt(v, CODE_BYTES + MAX_NAME, 0);
  }

  /** A listing response keeps its names only if it has none, in a record that was cleared before. */
  lemma ResponseArrivesIff(r: Record, stale: Record, scratch: Decoded, source: nat, seqNumber: nat, little: bool)
    requires r.kind.Response? && Fits(MessageFrom(r, source, seqNumber, little)) && CanFill(MessageFrom(r, source, seqNumber, little), scratch, little)
    requires forall i | 0 <= i < UNION_BYTES :: stale.memory[i] == 0
    ensures var d, f := StringAt(r.memory, CODE_BYTES), StringAt(r.memory, CODE_BYTES + MAX_NAME);
      var v := Filled(stale, MessageFrom(r, source, seqNumber, little), scratch, little).memory;
      StringAt(v, CODE_BYTES) == d && StringAt(v, CODE_BYTES + MAX_NAME) == f <==> d == [] && f == []
  {
    hide StringAt, NativeBytes, NativeValue, WithRequestNames, DecodedResponse, FieldCount;
    var m := MessageFrom(r, source, seqNumber, little);
    ResponsePlaces(scratch, m.successful, m.directory, m.file, little);
    ResponseNames(Store(stale.memory, 0, NativeBytes(Flag(!m.successful), CODE_BYTES, little)), DecodedListing(m, scratch, little), |m.file|, little);
  }

  /** The listing indication that a stored response gives: Some(true) for a successful listing. */
  function ListingIndication(r: Record, little: bool): Option<bool> {
    var code := Load(r.memory, 0, CODE_BYTES, little);
    if code == 0 then Some(true) else if code == 1 then Some(false) else None
  }

  lemma FourBytes(s: seq<bv8>)
    requires |s| == 4
    ensures LittleValue(s) == s[0] as nat + 0x100 * s[1] as nat + 0x1_0000 * s[2] as nat + 0x100_0000 * s[3] as nat
    ensures ValueOf(s) == s[3] as nat + 0x100 * s[2] as nat + 0x1_0000 * s[1] as nat + 0x100_0000 * s[0] as nat
  {
    assert s[1..][1..] == s[2..] && s[2..][1..] == s[3..] && s[3..][1..] == [];
    assert LittleValue(s[3..]) == s[3] as nat;
    assert LittleValue(s[2..]) == s[2] as nat + 0x100 * s[3] as nat;
    assert s[..3][..2] == s[..2] && s[..2][..1] == s[..1] && s[..1][..0] == [];
    assert ValueOf(s[..1]) == s[0] as nat;
    assert ValueOf(s[..2]) == s[1] as nat + 0x100 * s[0] as nat;
  }

  /** The code in a record is the number of bytes of the name that overwrites it. */
  lemma CodeOverwritten(u: Union, directory: seq<bv8>, file: seq<bv8>, little: bool)
    requires |directory| <= 1 && |file| <= MAX_NAME && u[0..4] == NativeBytes(|directory|, 4, little)
    ensures Load(WithNames(u, directory, file), 0, 4, little)
         == if |directory| == 0 then 0 else if little then directory[0] as nat else 0x100_0000 * directory[0] as nat + 1
  {
    hide NativeBytes, WithNames, Cast;
    CountBytes(|directory|, little);
    CastValue(1);
    var s, v := u[0..4], WithNames(u, directory, file);
    FirstBytes(u, directory, file);
    assert forall i | 0 <= i < 4 :: s[i] == u[i];
    FourBytes(v[0..4]);
  }

  lemma FirstBytes(u: Union, directory: seq<bv8>, file: seq<bv8>)
    requires |directory| <= 1 && |file| <= MAX_NAME
    ensures var v := WithNames(u, directory, file);
      && v[0] == (if directory == [] then 0 else directory[0]) && v[1] == (if directory == [] then u[1] else 0)
      && v[2] == u[2] && v[3] == u[3]
  {
    hide WithNames, WithName;
    NamesBytes(u, directory, file, 1); NamesBytes(u, directory, file, 2); NamesBytes(u, directory, file, 3);
    if directory == [] { NamesBytes(u, directory, file, 0); } else { DirectoryByte(u, directory, file); }
  }

  lemma DirectoryByte(u: Union, directory: seq<bv8>, file: seq<bv8>)
    requires |directory| == 1 && |file| <= MAX_NAME
    ensures WithNames(u, directory, file)[0] == directory[0]
  {
    BeforeZero(directory, 0);
  }

  /** The code that a filled record holds: an unsuccessful one is overwritten by the first byte of the
      directory name's count. */
  lemma FilledCode(m: Message, stale: Record, scratch: Decoded, little: bool)
    requires m.ListingResponse? && Fits(m) && CanFill(m, scratch, little)
    ensures Load(Filled(stale, m, scratch, little).memory, 0, CODE_BYTES, little)
         == if m.successful then 0 else if little then |m.directory| else 1
  {
    hide NativeBytes, NativeValue, WithNames, DecodedResponse, Cast;
    var t := DecodedListing(m, scratch, little);
    ResponsePlaces(scratch, m.successful, m.directory, m.file, little);
    CountBytes(|m.directory|, little);
    var u := Store(stale.memory, 0, NativeBytes(Flag(!m.successful), CODE_BYTES, little));
    var d, f := FieldName(t, 0, little), FieldName(t, FIELD_BYTES, little);
    assert !m.successful ==> d[0] == t[4..8][0];
    CodeOverwritten(u, d, f, little);
    CastValue(0);
  }

  /** What the requester of a listing is told: always that it succeeded if it did; otherwise, on a
      little-endian machine, the length of the directory name decides. */
  lemma ListingIndicationIff(r: Record, stale: Record, scratch: Decoded, source: nat, seqNumber: nat, little: bool)
    requires r.kind.Response? && Fits(MessageFrom(r, source, seqNumber, little)) && CanFill(MessageFrom(r, source, seqNumber, little), scratch, little)
    ensures var m := MessageFrom(r, source, seqNumber, little);
      var told := ListingIndication(Filled(stale, m, scratch, little), little);
      && (told == Some(true) <==> m.successful || (little && m.directory == []))
      && (told == Some(false) <==> !m.successful && (little ==> |m.directory| == 1))
      && (told == Some(m.successful) <==> m.successful || !little || |m.directory| == 1)
  {
    hide Filled, Load, CanFill;
    FilledCode(MessageFrom(r, source, seqNumber, little), stale, scratch, little);
  }

  /** With a directory name of up to 116 bytes, the count taken for the file name is what the memory of the
      decoded message held before. */
  lemma SecondCount(m: Message, scratch: Decoded, little: bool)
    requires m.ListingResponse? && Fits(m) && |m.directory| <= 116
    ensures CanFill(m, scratch, little) <==> FieldCount(scratch, FIELD_BYTES, little) <= MAX_NAME
  {
    hide NativeBytes, NativeValue, WithField;
    var u0 := Store(scratch, 0, NativeBytes(Flag(!m.successful), CODE_BYTES, little));
    var u1 := WithField(u0, CODE_BYTES, m.directory, little);
    FieldRead(u0, CODE_BYTES, m.directory, little);
    FieldRead(u1, CODE_BYTES + FIELD_BYTES, m.file, little);
    ResponsePlaces(scratch, m.successful, m.directory, m.file, little);
    assert DecodedListing(m, scratch, little)[FIELD_BYTES..FIELD_BYTES + 4] == scratch[FIELD_BYTES..FIELD_BYTES + 4];
  }

  /** What a received record keeps of a sent one */
  ghost predicate Keeps(r: Record, r': Record, source: nat, seqNumber: nat, little: bool) {
    && r'.kind == r.kind
    && (r.kind.Request? ==> StringAt(r'.memory, 0) == StringAt(r.memory, 0) && StringAt(r'.memory, MAX_NAME) == StringAt(r.memory, MAX_NAME))
    && (r.kind.Originating? ==> Load(r'.memory, 0, 8, little) == source && Load(r'.memory, 8, 8, little) == seqNumber)
    && (r.kind.Response? && Load(r.memory, 0, CODE_BYTES, little) == 0 ==> ListingIndication(r', little) == Some(true))
  }

  /** From the sender's records over the bytes behind the Metadata PDU to the receiver's records, up to the
      first record that does not encode: requests keep their names, ids are those of the transaction, and
      successful listings are told as such. */
  lemma RecordsArrive(p: Pdu, rs: seq<Record>, stale: seq<Record>, scratch: nat -> Decoded, source: nat, seqNumber: nat, little: bool)
    requires Encodable(p) && p.payload.Metadata? && |rs| <= |stale| == MAX_MESSAGES
    requires source < UINT56 && seqNumber < UINT56
    requires forall i | 0 <= i < |rs| :: Fits(MessageFrom(rs[i], source, seqNumber, little))
    requires forall i | 0 <= i < |rs| && rs[i].kind.Response? :: CanFill(MessageFrom(rs[i], source, seqNumber, little), scratch(i), little)
    ensures var x := PduBits(p) + ListBits(MessagesFrom(rs, source, seqNumber, little));
      var ms := GetList(x, 8 * StartOffset(p), |x| / 8, MAX_MESSAGES);
      && |ms| == |rs| && CanFillAll(ms, scratch, little)
      && forall i | 0 <= i < |rs| :: Keeps(rs[i], FilledAll(stale, ms, scratch, little)[i], source, seqNumber, little)
  {
    hide Fits, MessageFrom, PduBits, ListBits, GetList, Filled, Keeps, CanFill;
    var ms := MessagesFrom(rs, source, seqNumber, little);
    MessagesArrive(p, ms);
    forall i | 0 <= i < |rs| ensures CanFill(ms[i], scratch(i), little) && Keeps(rs[i], Filled(stale[i], ms[i], scratch(i), little), source, seqNumber, little) {
      RecordArrives(rs[i], stale[i], scratch(i), source, seqNumber, little);
    }
  }

  lemma RecordArrives(r: Record, stale: Record, scratch: Decoded, source: nat, seqNumber: nat, little: bool)
    requires source < UINT56 && seqNumber < UINT56 && Fits(MessageFrom(r, source, seqNumber, little))
    requires r.kind.Response? ==> CanFill(MessageFrom(r, source, seqNumber, little), scratch, little)
    ensures var m := MessageFrom(r, source, seqNumber, little);
      CanFill(m, scratch, little) && Keeps(r, Filled(stale, m, scratch, little), source, seqNumber, little)
  {
    hide WithNames, StringAt, Load, Store, WithRequestNames, DecodedListing, Copyable;
    match r.kind
    case Request => RequestArrives(r, stale, scratch, source, seqNumber, little);
    case Originating => OriginatingIdArrives(r, stale, scratch, source, seqNumber, little);
    case Response => ListingIndicationIff(r, stale, scratch, source, seqNumber, little);
  }
}

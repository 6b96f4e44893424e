/** One file from the source to the destination: what a receiver makes of a transfer's PDUs, over the
    bytes of the wire. */
module FileTransfers {
  import opened CStrings
  import opened Identifiers
  import opened Integers
  import opened Pdus
  import opened Protocol
  import opened ReceiverRuns
  import opened SenderRuns
  import opened SentFiles
  import opened Wire
  import Checksums

  // ---------- the file ----------

  /** What arrives in the file: every segment as a string copy. */
  function Transferred(file: seq<bv8>): (r: seq<bv8>)
    ensures |r| == |file|
  {
    seq(|file|, p requires 0 <= p < |file| => ByteSent(file, p))
  }

  function ByteSent(file: seq<bv8>, p: nat): bv8
    requires p < |file|
  {
    SegmentBounds(|file|, p / SEGMENT);
    Copied(SegmentOf(file, p / SEGMENT))[p % SEGMENT]
  }

  lemma ByteOfSegment(file: seq<bv8>, i: nat, j: nat)
    requires i < SegmentCount(|file|) && j < |SegmentOf(file, i)|
    ensures SEGMENT * i + j < |file| && file[SEGMENT * i + j] == SegmentOf(file, i)[j]
    ensures Transferred(file)[SEGMENT * i + j] == Copied(SegmentOf(file, i))[j]
  {
    hide Copied;
    SegmentBounds(|file|, i);
    var p := SEGMENT * i + j;
    assert p / SEGMENT == i && p % SEGMENT == j;
    assert Transferred(file)[p] == ByteSent(file, p);
  }

  lemma SegmentOfByte(file: seq<bv8>, p: nat)
    requires p < |file|
    ensures p / SEGMENT < SegmentCount(|file|) && p % SEGMENT < |SegmentOf(file, p / SEGMENT)|
    ensures SEGMENT * (p / SEGMENT) + p % SEGMENT == p
  {
    SegmentBounds(|file|, p / SEGMENT);
  }

  /** The transfer is exact if and only if in every segment zero bytes come last. */
  lemma TransferredIff(file: seq<bv8>)
    ensures Transferred(file) == file <==> forall i | 0 <= i < SegmentCount(|file|) :: ZerosLast(SegmentOf(file, i))
  {
    hide ZerosLast, Copied, SegmentOf, Transferred;
    if Transferred(file) == file {
      forall i | 0 <= i < SegmentCount(|file|) ensures ZerosLast(SegmentOf(file, i)) { ExactSegment(file, i); }
    }
    if forall i | 0 <= i < SegmentCount(|file|) :: ZerosLast(SegmentOf(file, i)) {
      forall p | 0 <= p < |file| ensures Transferred(file)[p] == file[p] {
        SegmentOfByte(file, p);
        ByteOfSegment(file, p / SEGMENT, p % SEGMENT);
        CopiedIff(SegmentOf(file, p / SEGMENT));
      }
    }
  }

  lemma ExactSegment(file: seq<bv8>, i: nat)
    requires Transferred(file) == file && i < SegmentCount(|file|)
    ensures ZerosLast(SegmentOf(file, i))
  {
    hide ZerosLast, Copied, SegmentOf, Transferred;
    var s := SegmentOf(file, i);
    forall j | 0 <= j < |s| ensures Copied(s)[j] == s[j] { ByteOfSegment(file, i, j); }
    CopiedIff(s);
  }

  /** The file while the segments in got have been stored over an older file. */
  predicate Partial(content: seq<bv8>, older: seq<bv8>, file: seq<bv8>, got: set<nat>) {
    && |older| <= |content| && (|content| <= |older| || |content| <= |file|)
    && (forall i | i in got && i < SegmentCount(|file|) :: SegmentTo(|file|, i + 1) <= |content|)
    && (forall p | 0 <= p < |content| && p < |file| && p / SEGMENT in got :: content[p] == ByteSent(file, p))
    && (forall p | |file| <= p < |content| :: content[p] == older[p])
  }

  lemma StoreOne(content: seq<bv8>, older: seq<bv8>, file: seq<bv8>, got: set<nat>, i: nat)
    requires Partial(content, older, file, got) && i < SegmentCount(|file|)
    ensures Partial(WriteAt(content, SEGMENT * i, Copied(SegmentOf(file, i))), older, file, got + {i})
  {
    hide Copied;
    var s := SegmentOf(file, i);
    CopiedLength(s);
    SegmentBounds(|file|, i);
    var content' := WriteAt(content, SEGMENT * i, Copied(s));
    forall p | 0 <= p < |content'| && p < |file| && p / SEGMENT in got + {i} ensures content'[p] == ByteSent(file, p) {
      if SEGMENT * i <= p < SEGMENT * i + |s| {
        assert p / SEGMENT == i && p % SEGMENT == p - SEGMENT * i;
      } else {
        assert p / SEGMENT != i;
        SegmentBounds(|file|, p / SEGMENT);
        assert p < SegmentTo(|file|, p / SEGMENT + 1);
      }
    }
  }

  /** Once every segment has arrived the new data stands at the front, and what reached beyond it in the
      older file still follows: the file is not truncated. */
  lemma AllStored(content: seq<bv8>, older: seq<bv8>, file: seq<bv8>, got: set<nat>)
    requires Partial(content, older, file, got) && forall i: nat | i < SegmentCount(|file|) :: i in got
    ensures content == Transferred(file) + (if |older| > |file| then older[|file|..] else [])
  {
    hide Copied, ByteSent;
    if |file| > 0 {
      var last := SegmentCount(|file|) - 1;
      SegmentBounds(|file|, last); SegmentBounds(|file|, last + 1);
      assert last in got && SegmentTo(|file|, last + 1) == |file|;
    }
    forall p | 0 <= p < |file| ensures content[p] == Transferred(file)[p] {
      SegmentBounds(|file|, p / SEGMENT);
      assert p / SEGMENT in got;
    }
  }

  /** The stored file is the source file if and only if zero bytes come last in every segment and the
      older file was no longer. */
  lemma StoredIff(content: seq<bv8>, older: seq<bv8>, file: seq<bv8>, got: set<nat>)
    requires Partial(content, older, file, got) && forall i: nat | i < SegmentCount(|file|) :: i in got
    ensures content == file <==> |older| <= |file| && forall i | 0 <= i < SegmentCount(|file|) :: ZerosLast(SegmentOf(file, i))
  {
    hide Partial, ZerosLast, ByteSent, SegmentOf;
    AllStored(content, older, file, got);
    TransferredIff(file);
    assert |older| <= |file| ==> content == Transferred(file);
    assert |older| > |file| ==> |content| > |file|;
  }

  // ---------- receiving ----------

  /** The PDUs are received one after the other. */
  function ReceiveAll(c: Config, k: Core, pdus: seq<Pdu>): Core {
    if pdus == [] then k else ReceivePdu(c, ReceiveAll(c, k, pdus[..|pdus| - 1]), Some(pdus[|pdus| - 1]))
  }

  lemma ReceiveOne(c: Config, k: Core, pdus: seq<Pdu>, p: Pdu)
    ensures ReceiveAll(c, k, pdus + [p]) == ReceivePdu(c, ReceiveAll(c, k, pdus), Some(p))
  {
    hide ReceivePdu;
    assert (pdus + [p])[..|pdus|] == pdus;
  }

  lemma {:induction false} ReceiveMore(c: Config, k: Core, a: seq<Pdu>, b: seq<Pdu>)
    ensures ReceiveAll(c, k, a + b) == ReceiveAll(c, ReceiveAll(c, k, a), b)
  {
    hide ReceivePdu;
    if b == [] {
      assert a + b == a;
    } else {
      assert (a + b)[..|a + b| - 1] == a + b[..|b| - 1];
      ReceiveMore(c, k, a, b[..|b| - 1]);
    }
  }

  lemma ReceiveFirst(c: Config, k: Core, p: Pdu)
    ensures ReceiveAll(c, k, [p]) == ReceivePdu(c, k, Some(p))
  {
    hide ReceivePdu;
    ReceiveOne(c, k, [], p);
    assert [] + [p] == [p];
  }

  /** The receiver is free, or busy with another transaction; the sender is not sending under this id. */
  predicate Fresh(k: Core, id: TransactionId) {
    && (k.receiver.state == Completed || k.receiver.id != id)
    && NotSending(k, id)
  }

  predicate NotSending(k: Core, id: TransactionId) { k.sender.state == Completed || k.sender.id != id }

  /** A PDU of this transaction, on its way to a receiver. */
  predicate IsOf(p: Pdu, id: TransactionId) {
    PduId(p) == id && p.header.direction.TowardReceiver? && p.header.mode.Unacknowledged?
  }

  lemma Routed(c: Config, k: Core, p: Pdu)
    requires IsOf(p, k.receiver.id) && NotSending(k, k.receiver.id) && IsWaiting(k.receiver)
    ensures ReceivePdu(c, k, Some(p)) == DeliverToReceiver(c, k, p.payload)
  {
    hide DeliverToReceiver;
  }

  lemma Delivery(c: Config, k: Core, p: Payload)
    requires !p.Ack?
    ensures DeliverToReceiver(c, k, p) == ReceiverStep(c, k, EventOf(p), k.receiver.transaction, Some(p))
  {
    hide ReceiverStep;
  }

  // ---------- a transfer that goes well ----------

  /** Entries a receiver makes while a transfer goes well. */
  predicate GoesWell(e: Effect) {
    match e
    case Started(role, _) => role.TheReceiver?
    case Indicated(role, i, _) => role.TheReceiver? && (i.MetadataReceived? || i.FileSegmentReceived?)
    case Stored(_, _, _) => true
    case _ => false
  }

  /** Since the log was from, all has gone well. */
  predicate GoneWell(from: seq<Effect>, log: seq<Effect>) {
    && |from| <= |log| && log[..|from|] == from
    && forall i | |from| <= i < |log| :: GoesWell(log[i])
  }

  lemma GoesOnWell(from: seq<Effect>, log: seq<Effect>, e: Effect)
    requires GoneWell(from, log) && GoesWell(e)
    ensures GoneWell(from, log + [e])
  {
    assert (log + [e])[..|from|] == log[..|from|];
  }

  /** The receiver waits for the rest of a file transfer. */
  predicate Awaiting(k: Core, id: TransactionId, name: Name) {
    && k.receiver.state == WaitForEof && k.receiver.id == id && NotSending(k, id)
    && IsFileTransfer(k.receiver.transaction) && k.receiver.transaction.destinationName == name
    && k.receiver.condition.NoError?
  }

  /** The receiver has the Metadata and the segments in got of a transfer that began with the log from. */
  predicate Collecting(k: Core, id: TransactionId, name: Name, older: seq<bv8>, file: seq<bv8>, got: set<nat>, from: seq<Effect>) {
    && Awaiting(k, id, name)
    && k.receiver.receivedFileSize <= |file| < UINT32
    && Partial(Contents(k.w.files, name), older, file, got)
    && GoneWell(from, k.w.log)
  }

  lemma PartialAtFirst(older: seq<bv8>, file: seq<bv8>)
    ensures Partial(older, older, file, {})
  {}

  lemma MetadataArrives(c: Config, k: Core, p: Pdu, file: seq<bv8>)
    requires IsOf(p, PduId(p)) && Fresh(k, PduId(p)) && p.payload.Metadata? && |file| < UINT32
    requires UpToZero(p.payload.sourceName) != [] && UpToZero(p.payload.destinationName) != []
    ensures var k', name := ReceivePdu(c, k, Some(p)), UpToZero(p.payload.destinationName);
      Collecting(k', PduId(p), name, Contents(k.w.files, name), file, {}, k.w.log) && k'.w.clock == k.w.clock
  {
    hide Partial, UpToZero, ValueOf;
    PartialAtFirst(Contents(k.w.files, UpToZero(p.payload.destinationName)), file);
  }

  lemma SegmentIs(c: Config, k: Core, p: Payload)
    requires p.FileData? && k.receiver.state == WaitForEof && IsFileTransfer(k.receiver.transaction)
    ensures ReceiverStep(c, k, E11ReceivedFileData, k.receiver.transaction, Some(p)) == StoreSegment(c, Notify(k, FileSegmentReceived), p.offset, p.data)
  {
    hide StoreSegment;
  }

  /** What a granted write does. */
  lemma StoreIs(c: Config, k: Core, offset: nat, data: seq<bv8>)
    requires c.answers(k.w.clock)
    ensures var name := k.receiver.transaction.destinationName;
      var k' := StoreSegment(c, k, offset, data);
      && k'.sender == k.sender && k'.w.clock == k.w.clock + 1
      && k'.receiver.(receivedFileSize := 0) == k.receiver.(receivedFileSize := 0)
      && (k'.receiver.receivedFileSize == k.receiver.receivedFileSize || k'.receiver.receivedFileSize == (offset + |data|) % UINT32)
      && Contents(k'.w.files, name) == WriteAt(Contents(k.w.files, name), offset, data)
      && k'.w.log == k.w.log + [Stored(name, offset, data)]
  {
    hide WriteAt;
  }

  /** A segment arrives: for the first time or again, in any order. */
  lemma SegmentArrives(c: Config, k: Core, id: TransactionId, name: Name, older: seq<bv8>, file: seq<bv8>, got: set<nat>, from: seq<Effect>, h: Header, i: nat)
    requires Collecting(k, id, name, older, file, got, from) && c.answers(k.w.clock) && i < SegmentCount(|file|)
    requires IsOf(SegmentPdu(h, file, i), id)
    ensures var k' := ReceivePdu(c, k, Some(SegmentPdu(h, file, i)));
      Collecting(k', id, name, older, file, got + {i}, from) && k'.w.clock == k.w.clock + 1
  {
    hide Partial, WriteAt, Copied, StoreSegment, ReceiverStep, DeliverToReceiver, PduId, ReceivePdu, GoneWell;
    var p, data, k1 := SegmentPdu(h, file, i), Copied(SegmentOf(file, i)), Notify(k, FileSegmentReceived);
    Routed(c, k, p);
    Delivery(c, k, p.payload);
    SegmentIs(c, k, p.payload);
    StoreIs(c, k1, SEGMENT * i, data);
    StoreOne(Contents(k.w.files, name), older, file, got, i);
    SegmentBounds(|file|, i);
    CopiedLength(SegmentOf(file, i));
    GoesOnWell(from, k.w.log, Indicated(TheReceiver, FileSegmentReceived, k.receiver.id));
    GoesOnWell(from, k1.w.log, Stored(name, SEGMENT * i, data));
  }

  function SegmentsIn(h: Header, file: seq<bv8>, order: seq<nat>): (r: seq<Pdu>)
    requires forall j | 0 <= j < |order| :: order[j] < SegmentCount(|file|)
    ensures |r| == |order|
  {
    seq(|order|, j requires 0 <= j < |order| => SegmentPdu(h, file, order[j]))
  }

  function Among(order: seq<nat>): set<nat> { set i | i in order }

  lemma {:induction false} SegmentsArrive(c: Config, k: Core, id: TransactionId, name: Name, older: seq<bv8>, file: seq<bv8>, from: seq<Effect>, h: Header, order: seq<nat>)
    requires Collecting(k, id, name, older, file, {}, from) && Willing(c, k.w.clock)
    requires h.direction.TowardReceiver? && h.mode.Unacknowledged? && id == IdOf(ValueOf(h.source), ValueOf(h.seqNumber))
    requires forall j | 0 <= j < |order| :: order[j] < SegmentCount(|file|)
    ensures var k' := ReceiveAll(c, k, SegmentsIn(h, file, order));
      Collecting(k', id, name, older, file, Among(order), from) && k'.w.clock >= k.w.clock
  {
    hide Collecting, ReceivePdu, SegmentOf, Copied, ValueOf;
    if order == [] {
      assert Among(order) == {};
    } else {
      var n := |order| - 1;
      SegmentsArrive(c, k, id, name, older, file, from, h, order[..n]);
      var k1 := ReceiveAll(c, k, SegmentsIn(h, file, order[..n]));
      SegmentArrives(c, k1, id, name, older, file, Among(order[..n]), from, h, order[n]);
      assert SegmentsIn(h, file, order) == SegmentsIn(h, file, order[..n]) + [SegmentPdu(h, file, order[n])];
      ReceiveOne(c, k, SegmentsIn(h, file, order[..n]), SegmentPdu(h, file, order[n]));
      assert Among(order) == Among(order[..n]) + {order[n]};
    }
  }

  /** The EOF arrives when everything else has. */
  lemma EofArrives(c: Config, k: Core, id: TransactionId, name: Name, older: seq<bv8>, file: seq<bv8>, got: set<nat>, from: seq<Effect>, p: Pdu)
    requires Collecting(k, id, name, older, file, got, from)
    requires IsComplete(p) && p.payload.fileSize == |file| && IsOf(p, id)
    requires ChecksumOf(c, name, k.w) == p.payload.checksum
    ensures var k' := ReceivePdu(c, k, Some(p));
      && k'.receiver == k.receiver.(state := Completed) && k'.w.files == k.w.files
      && k'.w.log == k.w.log + [Indicated(TheReceiver, EofReceived, id), Indicated(TheReceiver, TransactionFinished, id)]
  {
    hide Partial, ChecksumOf, ReceiverStep, ReceiveEof, DeliverToReceiver, PduId, FaultOutcome, ReceivePdu, GoneWell;
    Routed(c, k, p);
    Delivery(c, k, p.payload);
    EofIs(c, k, k.receiver.transaction, p.payload);
    ReceiveEofIs(c, k, p.payload.checksum, p.payload.fileSize);
  }

  // ---------- the Metadata must come first ----------

  /** A receiver knows a file to store if and only if its first PDU is Metadata that names one. */
  lemma FirstPduDecides(c: Config, k: Core, p: Pdu)
    requires IsOf(p, PduId(p)) && Fresh(k, PduId(p)) && (p.payload.Metadata? || p.payload.FileData?)
    ensures var k' := ReceivePdu(c, k, Some(p));
      && IsWaiting(k'.receiver) && k'.receiver.id == PduId(p) && k'.receiver.condition.NoError?
      && k'.sender == k.sender && k'.w.files == k.w.files
      && (IsFileTransfer(k'.receiver.transaction) <==>
          p.payload.Metadata? && UpToZero(p.payload.sourceName) != [] && UpToZero(p.payload.destinationName) != [])
  {
    hide ValueOf, UpToZero;
  }

  /** A receiver that waits without a file to store. */
  predicate Nameless(k: Core, id: TransactionId) {
    IsWaiting(k.receiver) && k.receiver.id == id && k.receiver.condition.NoError? && !IsFileTransfer(k.receiver.transaction) && NotSending(k, id)
  }

  lemma NamelessStep(c: Config, k: Core, id: TransactionId, p: Pdu)
    requires Nameless(k, id) && IsOf(p, id) && !p.payload.Eof?
    ensures var k' := ReceivePdu(c, k, Some(p)); Nameless(k', id) && k'.w.files == k.w.files
  {
    hide PduId, ReceivePdu;
    Routed(c, k, p);
  }

  lemma {:induction false} NamelessRun(c: Config, k: Core, id: TransactionId, pdus: seq<Pdu>)
    requires Nameless(k, id) && forall i | 0 <= i < |pdus| :: IsOf(pdus[i], id) && !pdus[i].payload.Eof?
    ensures var k' := ReceiveAll(c, k, pdus); Nameless(k', id) && k'.w.files == k.w.files
  {
    hide PduId, ReceivePdu, Nameless;
    if pdus != [] {
      NamelessRun(c, k, id, pdus[..|pdus| - 1]);
      NamelessStep(c, ReceiveAll(c, k, pdus[..|pdus| - 1]), id, pdus[|pdus| - 1]);
    }
  }

  lemma NamelessEof(c: Config, k: Core, id: TransactionId, e: Pdu)
    requires Nameless(k, id) && IsOf(e, id) && IsComplete(e)
    ensures var k' := ReceivePdu(c, k, Some(e));
      k'.w.files == k.w.files && k'.receiver.state == Completed && k'.receiver.condition.NoError?
  {
    hide PduId, ReceivePdu;
    Routed(c, k, e);
  }

  /** When FileData overtakes the Metadata, the file names are lost: whatever else of the transaction
      arrives, Metadata and data in any number and order, nothing is stored, and an EOF that reports no
      error finishes the receiver without any check. */
  lemma OvertakenMetadata(c: Config, k: Core, p: Pdu, pdus: seq<Pdu>, e: Pdu)
    requires IsOf(p, PduId(p)) && Fresh(k, PduId(p)) && p.payload.FileData?
    requires forall i | 0 <= i < |pdus| :: IsOf(pdus[i], PduId(p)) && !pdus[i].payload.Eof?
    requires IsOf(e, PduId(p)) && IsComplete(e)
    ensures var k1 := ReceiveAll(c, k, [p] + pdus);
      IsWaiting(k1.receiver) && k1.receiver.id == PduId(p) && k1.w.files == k.w.files
    ensures var k2 := ReceiveAll(c, k, [p] + pdus + [e]);
      k2.receiver.state == Completed && k2.receiver.condition.NoError? && k2.w.files == k.w.files
  {
    hide ReceivePdu, PduId, UpToZero;
    FirstPduDecides(c, k, p);
    ReceiveFirst(c, k, p);
    ReceiveMore(c, k, [p], pdus);
    NamelessRun(c, ReceivePdu(c, k, Some(p)), PduId(p), pdus);
    ReceiveOne(c, k, [p] + pdus, e);
    NamelessEof(c, ReceiveAll(c, k, [p] + pdus), PduId(p), e);
  }

  // ---------- over the wire ----------

  type Junk = s: seq<bv8> | |s| >= 34 witness seq(34, _ => 0)

  /** A PDU's frame arrives in a receive buffer with whatever follows it there. */
  ghost function Arrival(p: Pdu, junk: Junk): Call
    requires Encodable(p)
  {
    CallReceived(Unframe(Frame(p) + junk, |Frame(p)|))
  }

  ghost predicate AllEncodable(pdus: seq<Pdu>) { forall i | 0 <= i < |pdus| :: Encodable(pdus[i]) }

  /** The frames of the PDUs arrive one after the other. */
  ghost function Arrivals(pdus: seq<Pdu>, junk: nat -> Junk): (r: seq<Call>)
    requires AllEncodable(pdus)
    ensures |r| == |pdus|
  {
    seq(|pdus|, i requires 0 <= i < |pdus| => Arrival(pdus[i], junk(i)))
  }

  lemma Arrives(c: Config, k: Core, p: Pdu, junk: Junk)
    requires Encodable(p)
    ensures Step(c, k, Arrival(p, junk)) == ReceivePdu(c, k, Some(p))
  {
    hide Frame, Unframe, ReceivePdu;
    FrameRoundTrip(p, junk);
  }

  lemma {:induction false} ArrivalsReceived(c: Config, k: Core, pdus: seq<Pdu>, junk: nat -> Junk)
    requires AllEncodable(pdus)
    ensures Run(c, k, Arrivals(pdus, junk)) == ReceiveAll(c, k, pdus)
  {
    hide Step, Arrival, ReceivePdu, Encodable;
    if pdus != [] {
      var n := |pdus| - 1;
      ArrivalsReceived(c, k, pdus[..n], junk);
      assert Arrivals(pdus, junk)[..n] == Arrivals(pdus[..n], junk);
      Arrives(c, ReceiveAll(c, k, pdus[..n]), pdus[n], junk(n));
    }
  }

  // ---------- end to end ----------

  lemma HeaderId(t: Transaction)
    ensures IdOf(ValueOf(HeaderOf(t).source), ValueOf(HeaderOf(t).seqNumber)) == IdOf(t.source, t.seqNumber)
  {
    ValueOfMinimalBytes(t.source); ValueOfMinimalBytes(t.seqNumber);
  }

  predicate Covers(order: seq<nat>, n: nat) {
    (forall j | 0 <= j < |order| :: order[j] < n) && (forall i: nat | i < n :: i in order)
  }

  /** In every segment of the file, zero bytes come last. */
  predicate CopiesWell(file: seq<bv8>) {
    forall i | 0 <= i < SegmentCount(|file|) :: ZerosLast(SegmentOf(file, i))
  }

  /** Metadata and segments have arrived, in any order and with any repetitions: the stored file is the
      source file exactly when zero bytes come last in every segment and no longer file stood there. */
  lemma SegmentsStored(c: Config, k: Core, t: Transaction, m: Pdu, file: seq<bv8>, order: seq<nat>)
    requires |file| < UINT32 && Covers(order, SegmentCount(|file|))
    requires m.header == HeaderOf(t) && m.payload.Metadata?
    requires UpToZero(m.payload.sourceName) != [] && UpToZero(m.payload.destinationName) != []
    requires Willing(c, k.w.clock) && Fresh(k, IdOf(t.source, t.seqNumber))
    ensures var name := UpToZero(m.payload.destinationName);
      var k1 := ReceiveAll(c, k, [m] + SegmentsIn(HeaderOf(t), file, order));
      && Collecting(k1, IdOf(t.source, t.seqNumber), name, Contents(k.w.files, name), file, Among(order), k.w.log)
      && (Contents(k1.w.files, name) == file <==> |Contents(k.w.files, name)| <= |file| && CopiesWell(file))
  {
    hide Collecting, ReceivePdu, ValueOf, MinimalBytes, SegmentsIn, UpToZero, CopiesWell;
    var h, name := HeaderOf(t), UpToZero(m.payload.destinationName);
    HeaderId(t);
    MetadataArrives(c, k, m, file);
    ReceiveFirst(c, k, m);
    var k0 := ReceivePdu(c, k, Some(m));
    SegmentsArrive(c, k0, PduId(m), name, Contents(k.w.files, name), file, k.w.log, h, order);
    ReceiveMore(c, k, [m], SegmentsIn(h, file, order));
    CollectedIff(ReceiveAll(c, k0, SegmentsIn(h, file, order)), PduId(m), name, Contents(k.w.files, name), file, Among(order), k.w.log);
  }

  lemma CollectedIff(k: Core, id: TransactionId, name: Name, older: seq<bv8>, file: seq<bv8>, got: set<nat>, from: seq<Effect>)
    requires Collecting(k, id, name, older, file, got, from) && forall i: nat | i < SegmentCount(|file|) :: i in got
    ensures Contents(k.w.files, name) == file <==> |older| <= |file| && CopiesWell(file)
  {
    hide Partial, ZerosLast, SegmentOf;
    StoredIff(Contents(k.w.files, name), older, file, got);
  }

  /** Whether the source's checksum is taken over signed characters: the listing's is not. */
  predicate SourceSigned(a: Config, name: Name) { a.charSigned && name != LISTING_NAME }

  /** With one checksum type at both ends, and but for files of 1 to 3 bytes, the ends compute the same
      checksum if and only if both or neither take the bytes as signed, or what sign extension adds
      vanishes modulo 2^32. */
  lemma ChecksumsAgreeIff(a: Config, b: Config, name: Name, file: seq<bv8>, x: Word, y: Word)
    requires a.checksumType == b.checksumType && |file| < UINT32 && name != []
    requires name == LISTING_NAME ==> file == a.listing.buffer[..a.listing.size]
    requires a.checksumType.Modular? ==> !(1 <= |file| <= 3)
    ensures SourceSum(a, name, file, x) == SumOf(b, file, y) <==> ChecksumsAgree(a, b, name, file)
  {
    hide Checksums.AccumulatedSum, Checksums.WordSum, Checksums.ExtraSum;
    if a.checksumType.Modular? {
      SumIs(a, file, x); SumIs(b, file, y);
      Checksums.AddsNothing(Checksums.WordSum(file), Checksums.ExtraSum(file));
    }
  }

  predicate ChecksumsAgree(a: Config, b: Config, name: Name, file: seq<bv8>) {
    a.checksumType.Modular? ==> SourceSigned(a, name) == b.charSigned || Checksums.ExtraSum(file) % UINT32 == 0
  }

  lemma SumIs(c: Config, file: seq<bv8>, word: Word)
    requires c.checksumType.Modular? && |file| < UINT32 && !(1 <= |file| <= 3)
    ensures SumOf(c, file, word) == (Checksums.WordSum(file) + if c.charSigned then Checksums.ExtraSum(file) else 0) % UINT32
  {
    hide Checksums.AccumulatedSum, Checksums.WordSum, Checksums.ExtraSum;
    Checksums.SumInNumbers(file, c.charSigned);
    assert Checksums.ChecksummedBytes(file, word) == file[..|file|] == file;
  }

  /** The PDUs as they arrive: the first, then those between in the given order, then the last. */
  function Delivered(sent: seq<Pdu>, order: seq<nat>): seq<Pdu>
    requires |sent| >= 2 && forall j | 0 <= j < |order| :: order[j] < |sent| - 2
  {
    [sent[0]] + seq(|order|, j requires 0 <= j < |order| => sent[1 + order[j]]) + [sent[|sent| - 1]]
  }

  lemma DeliveredTransfer(c: Config, t: Transaction, file: seq<bv8>, checksum: nat, order: seq<nat>)
    requires Covers(order, SegmentCount(|file|))
    ensures Delivered(TransferPdus(c, t, file, checksum), order)
         == [MetadataPdu(c, t, |file|)] + SegmentsIn(HeaderOf(t), file, order) + [EofPdu(HeaderOf(t), NoError, checksum, |file|)]
  {
    hide HeaderOf, SegmentPdu, MetadataPdu, EofPdu;
  }

  lemma DeliveredEncodable(c: Config, t: Transaction, file: seq<bv8>, word: Word, order: seq<nat>)
    requires ValidIds(HeaderOf(t)) && |file| < UINT32 && Covers(order, SegmentCount(|file|))
    requires |t.sourceName| < MAX_FILE_NAME && |t.destinationName| < MAX_FILE_NAME
    ensures AllEncodable(Delivered(TransferPdus(c, t, file, SourceSum(c, t.sourceName, file, word)), order))
  {
    hide MinimalBytes, SourceSum, Encodable, Delivered, TransferPdus, HeaderOf, SegmentPdu;
    var sum := SourceSum(c, t.sourceName, file, word);
    var m, e, d := MetadataPdu(c, t, |file|), EofPdu(HeaderOf(t), NoError, sum, |file|), SegmentsIn(HeaderOf(t), file, order);
    DeliveredTransfer(c, t, file, sum, order);
    SumBound(c, t.sourceName, file, word);
    EndsEncodable(c, t, |file|, sum);
    forall j | 0 <= j < |order| ensures Encodable(d[j]) { SegmentEncodable(HeaderOf(t), file, order[j]); }
  }

  lemma EndsEncodable(c: Config, t: Transaction, size: nat, checksum: nat)
    requires ValidIds(HeaderOf(t)) && size < UINT32 && checksum < UINT32
    requires |t.sourceName| < MAX_FILE_NAME && |t.destinationName| < MAX_FILE_NAME
    ensures Encodable(MetadataPdu(c, t, size)) && Encodable(EofPdu(HeaderOf(t), NoError, checksum, size))
  {
    hide MinimalBytes;
  }

  /** Clipped names contain no zero byte, so they arrive as they are. */
  lemma NameArrives(name: Name)
    ensures UpToZero(ClippedName(name)) == ClippedName(name) && |ClippedName(name)| < MAX_FILE_NAME
  {
    hide UpToZero;
    CopiedPrefixZero(ClippedName(name));
  }

  /** Once all PDUs of a transfer are delivered, the file is there and the receiver is content. */
  ghost predicate Received(k: Core, k': Core, id: TransactionId, name: Name, file: seq<bv8>) {
    && Contents(k'.w.files, name) == file
    && k'.receiver.state == Completed && k'.receiver.condition.NoError? && k'.receiver.id == id
    && |k.w.log| + 2 <= |k'.w.log| && GoneWell(k.w.log, k'.w.log[..|k'.w.log| - 2])
    && k'.w.log[|k'.w.log| - 2..] == [Indicated(TheReceiver, EofReceived, id), Indicated(TheReceiver, TransactionFinished, id)]
  }

  lemma TransferReceived(a: Config, t: Transaction, file: seq<bv8>, word: Word, b: Config, k: Core, order: seq<nat>)
    requires |file| < UINT32 && CopiesWell(file) && Covers(order, SegmentCount(|file|)) && IsFileTransfer(t)
    requires t.sourceName == LISTING_NAME ==> file == a.listing.buffer[..a.listing.size]
    requires UpToZero(t.sourceName) == t.sourceName && UpToZero(t.destinationName) == t.destinationName
    requires a.checksumType == b.checksumType && (a.checksumType.Modular? ==> !(1 <= |file| <= 3)) && ChecksumsAgree(a, b, t.sourceName, file)
    requires Willing(b, k.w.clock) && Fresh(k, IdOf(t.source, t.seqNumber)) && |Contents(k.w.files, t.destinationName)| <= |file|
    ensures Received(k, ReceiveAll(b, k, Delivered(TransferPdus(a, t, file, SourceSum(a, t.sourceName, file, word)), order)),
                     IdOf(t.source, t.seqNumber), t.destinationName, file)
  {
    hide Collecting, ReceivePdu, ValueOf, MinimalBytes, SegmentsIn, CopiesWell, Delivered, TransferPdus, UpToZero, SourceSum, SumOf, ChecksumsAgree;
    var id, name, sum := IdOf(t.source, t.seqNumber), t.destinationName, SourceSum(a, t.sourceName, file, word);
    var m, d, e := MetadataPdu(a, t, |file|), SegmentsIn(HeaderOf(t), file, order), EofPdu(HeaderOf(t), NoError, sum, |file|);
    DeliveredTransfer(a, t, file, sum, order);
    SegmentsStored(b, k, t, m, file, order);
    var k1 := ReceiveAll(b, k, [m] + d);
    ReceiveOne(b, k, [m] + d, e);
    HeaderId(t);
    ChecksumsAgreeIff(a, b, t.sourceName, file, word, b.stale(k1.w.clock));
    EofArrives(b, k1, id, name, Contents(k.w.files, name), file, Among(order), k.w.log, e);
    Collected(k1, id, name, Contents(k.w.files, name), file, Among(order), k.w.log);
    var k2 := ReceivePdu(b, k1, Some(e));
    assert k2.w.log[..|k2.w.log| - 2] == k1.w.log;
  }

  lemma Collected(k: Core, id: TransactionId, name: Name, older: seq<bv8>, file: seq<bv8>, got: set<nat>, from: seq<Effect>)
    requires Collecting(k, id, name, older, file, got, from)
    ensures k.receiver.condition.NoError? && k.receiver.id == id && GoneWell(from, k.w.log)
  {}

  /** End to end, over the wire. A file is put; the transfer may be suspended, resumed, frozen, thawed or
      found not ready in any way while the file stays. Once its EOF, reporting no error, has been sent: when
      a fresh receiver gets the frame of the Metadata first, those of the segments in any order and with any
      repetitions, and that of the EOF last, the stored file is the source file, and the receiver has
      completed without a fault and with exactly one finished indication. */
  lemma EndToEnd(a: Config, ka: Core, destination: nat, sourceName: Name, destinationName: Name, file: seq<bv8>, calls: seq<Call>,
                 b: Config, kb: Core, order: seq<nat>, junk: nat -> Junk)
    requires var t := NextTransaction(a, ka, destination, sourceName, destinationName);
      Sends(a, t, file, ka.w) && FileStays(a, Put(a, ka, destination, sourceName, destinationName), calls, t, file) && NoPut(calls)
    requires var sent := SentSince(Run(a, Put(a, ka, destination, sourceName, destinationName), calls).w.log);
      sent != [] && IsComplete(sent[|sent| - 1])
    requires CopiesWell(file) && Covers(order, SegmentCount(|file|))
    requires var t := NextTransaction(a, ka, destination, sourceName, destinationName);
      && a.checksumType == b.checksumType && (a.checksumType.Modular? ==> !(1 <= |file| <= 3)) && ChecksumsAgree(a, b, t.sourceName, file)
      && Willing(b, kb.w.clock) && Fresh(kb, IdOf(t.source, t.seqNumber)) && |Contents(kb.w.files, t.destinationName)| <= |file|
    ensures var t := NextTransaction(a, ka, destination, sourceName, destinationName);
      var sent := SentSince(Run(a, Put(a, ka, destination, sourceName, destinationName), calls).w.log);
      && |sent| == SegmentCount(|file|) + 2 && AllEncodable(Delivered(sent, order))
      && Received(kb, Run(b, kb, Arrivals(Delivered(sent, order), junk)), IdOf(t.source, t.seqNumber), t.destinationName, file)
  {
    hide SentSince, Put, Run, Step, OnTrack, IsPartOf, FileStays, CopiesWell, ChecksumsAgree, ClippedName, Received, Arrivals, Delivered,
         TransferPdus, HeaderOf, UpToZero, SourceSum, ReceiveAll, AllEncodable;
    var t := NextTransaction(a, ka, destination, sourceName, destinationName);
    var sent := SentSince(Run(a, Put(a, ka, destination, sourceName, destinationName), calls).w.log);
    InterruptedTransfer(a, ka, destination, sourceName, destinationName, file, calls);
    var word := CompleteTransfer(a, t, file, sent);
    NameArrives(sourceName); NameArrives(destinationName);
    DeliveredEncodable(a, t, file, word, order);
    ArrivalsReceived(b, kb, Delivered(sent, order), junk);
    TransferReceived(a, t, file, word, b, kb, order);
  }

  // ---------- a transfer to oneself ----------

  /** An entity whose own Metadata comes back to it waits for the EOF under its sender's transaction id.
      Then the timeout goes to the sender, which is done, and the receiver waits on for ever. */
  lemma OwnMetadata(c: Config, k: Core, destination: nat, sourceName: Name, destinationName: Name, file: seq<bv8>, junk: Junk)
    requires var t := NextTransaction(c, k, destination, sourceName, destinationName);
      Willing(c, k.w.clock) && ValidIds(HeaderOf(t)) && Sends(c, t, file, k.w) && Initial(k)
    ensures var t := NextTransaction(c, k, destination, sourceName, destinationName);
      && Encodable(MetadataPdu(c, t, |file|))
      && var k1 := Run(c, k, [CallPut(destination, sourceName, destinationName), Arrival(MetadataPdu(c, t, |file|), junk)]);
      && k1.receiver.state == WaitForEof && k1.receiver.id == k1.sender.id && k1.sender.state == Completed
      && IsFileTransfer(k1.receiver.transaction)
      && Step(c, k1, CallTimerExpired) == k1
  {
    hide Put, ReceivePdu, Frame, Unframe, ClippedName, ValueOf, HeaderOf, UpToZero, TransferPdus, SourceSum, Collecting, Encodable;
    var t := NextTransaction(c, k, destination, sourceName, destinationName);
    var p := MetadataPdu(c, t, |file|);
    NameArrives(sourceName); NameArrives(destinationName);
    EndsEncodable(c, t, |file|, 0);
    PutSendsAll(c, k, destination, sourceName, destinationName, file);
    var k0 := Put(c, k, destination, sourceName, destinationName);
    HeaderId(t);
    HeaderDirection(t);
    MetadataArrives(c, k0, p, file);
    Arrives(c, k0, p, junk);
    RunTwo(c, k, CallPut(destination, sourceName, destinationName), Arrival(p, junk));
    var k1 := ReceivePdu(c, k0, Some(p));
    Collects(k1, PduId(p), t.destinationName, Contents(k0.w.files, t.destinationName), file, {}, k0.w.log);
    SenderKept(c, k0, p);
    TimeoutToDoneSender(c, k1);
  }

  lemma HeaderDirection(t: Transaction)
    ensures HeaderOf(t).direction.TowardReceiver? && HeaderOf(t).mode.Unacknowledged?
  {}

  lemma Collects(k: Core, id: TransactionId, name: Name, older: seq<bv8>, file: seq<bv8>, got: set<nat>, from: seq<Effect>)
    requires Collecting(k, id, name, older, file, got, from)
    ensures k.receiver.state == WaitForEof && k.receiver.id == id && IsFileTransfer(k.receiver.transaction)
  {}

  lemma SenderKept(c: Config, k: Core, p: Pdu)
    requires k.sender.state == Completed && IsOf(p, PduId(p)) && Fresh(k, PduId(p)) && p.payload.Metadata?
    ensures ReceivePdu(c, k, Some(p)).sender == k.sender
  {
    hide ValueOf, UpToZero;
  }

  lemma TimeoutToDoneSender(c: Config, k: Core)
    requires k.sender.state == Completed && k.receiver.id == k.sender.id
    ensures Step(c, k, CallTimerExpired) == k
  {}

  lemma RunTwo(c: Config, k: Core, first: Call, second: Call)
    ensures Run(c, k, [first, second]) == Step(c, Step(c, k, first), second)
  {
    hide Step;
    assert [first, second][..1] == [first] && [first][..0] == [];
    assert Run(c, k, []) == k;
    assert Run(c, k, [first]) == Step(c, k, first);
  }
}

/** A file received amid other calls: between the Metadata and the EOF, the receiving entity sends, is asked
    for reports, gets bytes that do not decode, and so on. */
module InterleavedTransfers {
  import opened CStrings
  import opened Identifiers
  import opened Integers
  import opened Pdus
  import opened Protocol
  import opened ReceiverRuns
  import opened SenderRuns
  import opened SentFiles
  import opened FileTransfers

  // ---------- the sender of the same entity ----------

  lemma {:induction false} LoopKeepsId(c: Config, s: Sender, w: World)
    requires s.state == SendFile
    ensures var (s', w') := SendLoop(c, s, w); s'.id == s.id && w'.clock >= w.clock
    decreases if IsSendComplete(s.transaction) then 0 else s.transaction.fileSize - s.transaction.filePosition
  {
    hide Copied, Encodable, MinimalBytes, SourceSum;
    if !IsPaused(s) && c.answers(w.clock) && !IsSendComplete(s.transaction) {
      FileDataAdvances(c, s, Tick(w));
      var a := TransmitFileData(c, s, Tick(w));
      if a.ok { LoopKeepsId(c, a.s, a.w); }
    }
  }

  lemma PutKeepsId(c: Config, s: Sender, w: World)
    ensures var (s', w') := SenderPut(c, s, w); s'.id == s.id && w'.clock >= w.clock
  {
    hide SendLoop, Encodable, MinimalBytes, SourceSum;
    var a := TransmitMetadata(c, s, Tell(s, w, TransactionStarted));
    LoopKeepsId(c, a.s.(state := SendFile), a.w);
  }

  /** A sender that is done stays as it is; another keeps its transaction, but for a new put. */
  lemma StepKeepsId(c: Config, s: Sender, w: World, e: Event, t: Transaction)
    ensures var (s', w') := SenderStep(c, s, w, e, t);
      && w'.clock >= w.clock
      && (s.state == Completed ==> s' == s)
      && s'.id == if s.state == SendMetadata && e.E0EnteredState? then IdOf(t.source, t.seqNumber) else s.id
  {
    hide SendLoop, SenderPut, Encodable, MinimalBytes, SourceSum;
    if s.state == SendFile {
      LoopKeepsId(c, s, w); LoopKeepsId(c, s.(isFrozen := false), w);
      LoopKeepsId(c, s.(isSuspended := false), Tell(s, w, Resumed));
    } else if s.state == SendMetadata {
      PutKeepsId(c, s, w);
    }
  }

  // ---------- calls that leave a transaction alone ----------

  /** The receiver's transaction id is as it was, and so is everything about it. */
  predicate Aside(k: Core, k': Core, id: TransactionId) {
    && k'.receiver == k.receiver && k'.w.files == k.w.files && k'.w.clock >= k.w.clock
    && SameReceiverLog(k.w.log, k'.w.log) && NotSending(k', id)
  }

  /** Everything but: a put under the same id, a cancellation of it, the receiver's timeout, a PDU of the
      transaction itself, and a PDU that starts another one and so replaces it. */
  predicate Bystander(c: Config, k: Core, id: TransactionId, call: Call) {
    match call
    case CallPut(_, _, _) => IdOf(c.entityId, (k.seqNumber + 1) % UINT32) != id
    case CallCancel(other) => other != id
    case CallTimerExpired => false
    case CallReceived(None) => true
    case CallReceived(Some(p)) => p.header.mode.Acknowledged? || (PduId(p) != id && !StartsReceiver(k, p))
    case _ => true
  }

  predicate StartsReceiver(k: Core, p: Pdu) {
    && (PduId(p) != k.sender.id || k.sender.state.Completed?)
    && p.header.direction.TowardReceiver? && !p.payload.Finished? && !p.payload.Ack?
  }

  lemma EventAside(c: Config, k: Core, id: TransactionId, e: Event)
    requires NotSending(k, id) && !e.E0EnteredState?
    ensures Aside(k, SenderEvent(c, k, e), id)
  {
    hide SenderStep, StoredSince, TerminalsSince;
    StepKeepsId(c, k.sender, k.w, e, k.sender.transaction);
    SenderStepNeutral(c, k.sender, k.w, e, k.sender.transaction);
  }

  lemma PutAside(c: Config, k: Core, id: TransactionId, destination: nat, sourceName: Name, destinationName: Name)
    requires IdOf(c.entityId, (k.seqNumber + 1) % UINT32) != id
    ensures Aside(k, Put(c, k, destination, sourceName, destinationName), id)
  {
    hide SenderStep, StoredSince, TerminalsSince, ClippedName;
    var t, s := NextTransaction(c, k, destination, sourceName, destinationName), k.sender.(state := SendMetadata);
    var (s1, w1) := SenderStep(c, s, k.w, E0EnteredState, t);
    StepKeepsId(c, s, k.w, E0EnteredState, t);
    SenderStepNeutral(c, s, k.w, E0EnteredState, t);
    StepKeepsId(c, s1, w1, E30ReceivedPutRequest, t);
    SenderStepNeutral(c, s1, w1, E30ReceivedPutRequest, t);
  }

  lemma NothingAside(k: Core, id: TransactionId)
    requires NotSending(k, id)
    ensures Aside(k, k, id) && Aside(k, Fail(k, UnsupportedAction), id) && Aside(k, Fail(k, Asn1sccError), id) && Aside(k, Notify(k, Report), id)
  {
    hide StoredSince, TerminalsSince;
    NeutralEmitted(k.w, Error(UnsupportedAction)); NeutralEmitted(k.w, Error(Asn1sccError));
    NeutralEmitted(k.w, Indicated(TheReceiver, Report, k.receiver.id));
  }

  lemma RequestAside(c: Config, k: Core, id: TransactionId, other: TransactionId, e: Event)
    requires NotSending(k, id) && k.receiver.id == id
    requires e.E31ReceivedSuspendRequest? || e.E32ReceivedResumeRequest? || e.E34ReceivedReportRequest? || (other != id && !e.E0EnteredState? && Accompanied(e, None))
    ensures Aside(k, IssueRequest(c, k, other, e), id)
  {
    hide Aside, SenderEvent, Notify, Fail;
    NothingAside(k, id);
    if other == k.sender.id { EventAside(c, k, id, e); }
  }

  lemma PduAside(c: Config, k: Core, id: TransactionId, p: Pdu)
    requires NotSending(k, id) && k.receiver.id == id
    requires p.header.mode.Acknowledged? || (PduId(p) != id && !StartsReceiver(k, p))
    ensures Aside(k, ReceivePdu(c, k, Some(p)), id)
  {
    hide Aside, SenderEvent, DeliverToReceiver, PduId, Announced, Fail;
    NothingAside(k, id);
    if !p.header.mode.Acknowledged? && PduId(p) == k.sender.id && !k.sender.state.Completed? {
      var k1 := Announced(k, p.payload);
      AnnouncedAside(k, id, p.payload);
      EventAside(c, k1, id, EventOf(p.payload));
      AsideTwice(k, k1, SenderEvent(c, k1, EventOf(p.payload)), id);
    }
  }

  lemma AnnouncedAside(k: Core, id: TransactionId, p: Payload)
    requires NotSending(k, id)
    ensures Aside(k, Announced(k, p), id) && NotSending(Announced(k, p), id)
  {
    hide Aside, Fail;
    NothingAside(k, id);
    AsideNotSending(k, Announced(k, p), id);
  }

  lemma AsideNotSending(k: Core, k': Core, id: TransactionId)
    requires Aside(k, k', id)
    ensures NotSending(k', id)
  {}

  lemma AsideTwice(k: Core, k1: Core, k2: Core, id: TransactionId)
    requires Aside(k, k1, id) && Aside(k1, k2, id)
    ensures Aside(k, k2, id)
  {
    hide StoredSince, TerminalsSince;
  }

  lemma BystanderAside(c: Config, k: Core, id: TransactionId, call: Call)
    requires NotSending(k, id) && k.receiver.id == id && Bystander(c, k, id, call)
    ensures Aside(k, Step(c, k, call), id)
  {
    hide Aside, IssueRequest, ReceivePdu, SenderEvent, Put, PduId, Fail, StartsReceiver;
    NothingAside(k, id);
    match call
    case CallPut(destination, sourceName, destinationName) => PutAside(c, k, id, destination, sourceName, destinationName);
    case CallCancel(other) => RequestAside(c, k, id, other, E33ReceivedCancelRequest);
    case CallSuspend(other) => RequestAside(c, k, id, other, E31ReceivedSuspendRequest);
    case CallResume(other) => RequestAside(c, k, id, other, E32ReceivedResumeRequest);
    case CallReport(other) => RequestAside(c, k, id, other, E34ReceivedReportRequest);
    case CallFreeze(_) => EventAside(c, k, id, E40ReceivedFreeze);
    case CallThaw(_) => EventAside(c, k, id, E41ReceivedThaw);
    case CallTransportReady => EventAside(c, k, id, E1SendFileData); SenderFirst(c, k, E1SendFileData);
    case CallReceived(Some(p)) => PduAside(c, k, id, p);
    case CallReceived(None) => Undecodable(c, k);
    case CallTimerExpired =>
  }

  lemma SenderFirst(c: Config, k: Core, e: Event)
    requires Accompanied(e, None)
    ensures IssueRequest(c, k, k.sender.id, e) == SenderEvent(c, k, e)
  {}

  lemma Undecodable(c: Config, k: Core)
    ensures ReceivePdu(c, k, None) == Fail(k, Asn1sccError)
  {}

  // ---------- receiving amid such calls ----------

  /** The receiver has the Metadata and the segments in got; its transaction is not over. */
  predicate Gathering(k: Core, id: TransactionId, name: Name, older: seq<bv8>, file: seq<bv8>, got: set<nat>) {
    Collecting(k, id, name, older, file, got, k.w.log) && TerminalsSince(k.w.log, TheReceiver) == 0
  }

  lemma AsideGathers(k: Core, k': Core, id: TransactionId, name: Name, older: seq<bv8>, file: seq<bv8>, got: set<nat>)
    requires Gathering(k, id, name, older, file, got) && Aside(k, k', id)
    ensures Gathering(k', id, name, older, file, got)
  {
    hide StoredSince, TerminalsSince, Partial;
  }

  lemma {:induction false} WellWithoutEnd(w: World, log: seq<Effect>)
    requires GoneWell(w.log, log) && TerminalsSince(w.log, TheReceiver) == 0
    ensures TerminalsSince(log, TheReceiver) == 0
    decreases |log|
  {
    if |log| > |w.log| {
      var n := |log| - 1;
      assert log[..n][..|w.log|] == w.log;
      WellWithoutEnd(w, log[..n]);
    } else {
      assert log == log[..|w.log|];
    }
  }

  lemma SegmentGathers(c: Config, k: Core, id: TransactionId, name: Name, older: seq<bv8>, file: seq<bv8>, got: set<nat>, h: Header, i: nat)
    requires Gathering(k, id, name, older, file, got) && c.answers(k.w.clock) && i < SegmentCount(|file|)
    requires IsOf(SegmentPdu(h, file, i), id)
    ensures var k' := ReceivePdu(c, k, Some(SegmentPdu(h, file, i)));
      Gathering(k', id, name, older, file, got + {i}) && k'.w.clock >= k.w.clock
  {
    hide TerminalsSince, ReceivePdu, SegmentPdu, PduId, Partial;
    SegmentArrives(c, k, id, name, older, file, got, k.w.log, h, i);
    WellWithoutEnd(k.w, ReceivePdu(c, k, Some(SegmentPdu(h, file, i))).w.log);
  }

  lemma MetadataGathers(c: Config, k: Core, p: Pdu, file: seq<bv8>)
    requires IsOf(p, PduId(p)) && Fresh(k, PduId(p)) && p.payload.Metadata? && |file| < UINT32
    requires UpToZero(p.payload.sourceName) != [] && UpToZero(p.payload.destinationName) != []
    ensures var k', name := ReceivePdu(c, k, Some(p)), UpToZero(p.payload.destinationName);
      Gathering(k', PduId(p), name, Contents(k.w.files, name), file, {}) && k'.w.clock == k.w.clock
  {
    hide TerminalsSince, StoredSince, Partial, UpToZero, ValueOf;
    MetadataArrives(c, k, p, file);
    var e1, e2 := Started(TheReceiver, PduId(p)), Indicated(TheReceiver, MetadataReceived, PduId(p));
    ReceiverRuns.Emitted(k.w, e1);
    ReceiverRuns.Emitted(Emit(k.w, e1), e2);
    assert ReceivePdu(c, k, Some(p)).w.log == Emit(Emit(k.w, e1), e2).log;
  }

  /** Between Metadata and EOF: a segment of the file, or any other call */
  datatype Item = Own(index: nat, junk: Junk) | Other(call: Call)

  predicate InFile(items: seq<Item>, n: nat) {
    forall j | 0 <= j < |items| && items[j].Own? :: items[j].index < n
  }

  function Delivers(items: seq<Item>): set<nat> { set j | 0 <= j < |items| && items[j].Own? :: items[j].index }

  /** The items one after the other, in terms of PDUs */
  function After(c: Config, k: Core, h: Header, file: seq<bv8>, items: seq<Item>): Core
    requires InFile(items, SegmentCount(|file|))
  {
    if items == [] then k
    else
      var k1 := After(c, k, h, file, items[..|items| - 1]);
      match items[|items| - 1]
      case Own(i, _) => ReceivePdu(c, k1, Some(SegmentPdu(h, file, i)))
      case Other(call) => Step(c, k1, call)
  }

  /** The other calls leave the transaction alone. */
  predicate LeftAlone(c: Config, k: Core, h: Header, file: seq<bv8>, items: seq<Item>, id: TransactionId)
    requires InFile(items, SegmentCount(|file|))
  {
    items == [] ||
    (var before, item := items[..|items| - 1], items[|items| - 1];
     && LeftAlone(c, k, h, file, before, id)
     && (item.Other? ==> Bystander(c, After(c, k, h, file, before), id, item.call)))
  }

  lemma {:induction false} ItemsArrive(c: Config, k: Core, h: Header, file: seq<bv8>, items: seq<Item>, id: TransactionId, name: Name, older: seq<bv8>)
    requires Gathering(k, id, name, older, file, {}) && Willing(c, k.w.clock) && InFile(items, SegmentCount(|file|))
    requires h.direction.TowardReceiver? && h.mode.Unacknowledged? && id == IdOf(ValueOf(h.source), ValueOf(h.seqNumber))
    requires LeftAlone(c, k, h, file, items, id)
    ensures var k' := After(c, k, h, file, items);
      Gathering(k', id, name, older, file, Delivers(items)) && k'.w.clock >= k.w.clock
  {
    hide Gathering, ReceivePdu, Step, SegmentOf, Copied, ValueOf, Bystander;
    if items == [] {
      assert Delivers(items) == {};
    } else {
      var n := |items| - 1;
      ItemsArrive(c, k, h, file, items[..n], id, name, older);
      var k1 := After(c, k, h, file, items[..n]);
      match items[n]
      case Own(i, _) =>
        SegmentGathers(c, k1, id, name, older, file, Delivers(items[..n]), h, i);
        assert Delivers(items) == Delivers(items[..n]) + {i};
      case Other(call) =>
        GathersOf(k1, id, name, older, file, Delivers(items[..n]));
        BystanderAside(c, k1, id, call);
        AsideGathers(k1, Step(c, k1, call), id, name, older, file, Delivers(items[..n]));
        assert Delivers(items) == Delivers(items[..n]);
    }
  }

  lemma GathersOf(k: Core, id: TransactionId, name: Name, older: seq<bv8>, file: seq<bv8>, got: set<nat>)
    requires Gathering(k, id, name, older, file, got)
    ensures NotSending(k, id) && k.receiver.id == id && Collecting(k, id, name, older, file, got, k.w.log)
  {}

  // ---------- over the wire, end to end ----------

  /** The calls that the items make: sent holds the PDUs of the transfer. */
  ghost function CallsOf(sent: seq<Pdu>, items: seq<Item>): (r: seq<Call>)
    requires |sent| >= 2 && AllEncodable(sent) && InFile(items, |sent| - 2)
    ensures |r| == |items|
  {
    seq(|items|, j requires 0 <= j < |items| => match items[j] case Own(i, junk) => Arrival(sent[1 + i], junk) case Other(call) => call)
  }

  lemma {:induction false} CallsMake(c: Config, k: Core, h: Header, file: seq<bv8>, sent: seq<Pdu>, items: seq<Item>)
    requires |sent| == SegmentCount(|file|) + 2 && AllEncodable(sent) && InFile(items, |sent| - 2)
    requires forall i | 0 <= i < SegmentCount(|file|) :: sent[1 + i] == SegmentPdu(h, file, i)
    ensures Run(c, k, CallsOf(sent, items)) == After(c, k, h, file, items)
  {
    hide Step, Arrival, ReceivePdu, Encodable, SegmentPdu;
    if items != [] {
      var n := |items| - 1;
      CallsMake(c, k, h, file, sent, items[..n]);
      assert CallsOf(sent, items)[..n] == CallsOf(sent, items[..n]);
      match items[n]
      case Own(i, junk) => Arrives(c, After(c, k, h, file, items[..n]), sent[1 + i], junk);
      case Other(_) =>
    }
  }

  lemma {:induction false} RunMore(c: Config, k: Core, first: seq<Call>, more: seq<Call>)
    ensures Run(c, k, first + more) == Run(c, Run(c, k, first), more)
  {
    hide Step;
    if more == [] {
      assert first + more == first;
    } else {
      assert (first + more)[..|first + more| - 1] == first + more[..|more| - 1];
      RunMore(c, k, first, more[..|more| - 1]);
    }
  }

  lemma RunAround(c: Config, k: Core, first: Call, more: seq<Call>, last: Call)
    ensures Run(c, k, [first] + more + [last]) == Step(c, Run(c, Step(c, k, first), more), last)
  {
    hide Step;
    RunMore(c, k, [first], more);
    assert ([first] + more + [last])[..|more| + 1] == [first] + more;
    assert Run(c, k, [first]) == Step(c, Run(c, k, []), first) by { assert [first][..0] == []; }
  }

  /** The file is there, and the receiver has finished the transaction once and without a fault. */
  ghost predicate Done(k: Core, id: TransactionId, name: Name, file: seq<bv8>) {
    && Contents(k.w.files, name) == file
    && k.receiver.state == Completed && k.receiver.condition.NoError? && k.receiver.id == id
    && TerminalsSince(k.w.log, TheReceiver) == 1
    && |k.w.log| >= 2
    && k.w.log[|k.w.log| - 2..] == [Indicated(TheReceiver, EofReceived, id), Indicated(TheReceiver, TransactionFinished, id)]
  }

  lemma EofFinishes(c: Config, k: Core, id: TransactionId, name: Name, older: seq<bv8>, file: seq<bv8>, got: set<nat>, p: Pdu)
    requires Gathering(k, id, name, older, file, got) && forall i: nat | i < SegmentCount(|file|) :: i in got
    requires |older| <= |file| && CopiesWell(file)
    requires IsComplete(p) && p.payload.fileSize == |file| && IsOf(p, id) && SumOf(c, file, c.stale(k.w.clock)) == p.payload.checksum
    ensures Done(ReceivePdu(c, k, Some(p)), id, name, file)
  {
    hide TerminalsSince, StoredSince, ReceivePdu, PduId, Partial, SumOf, CopiesWell, Collecting;
    CollectedIff(k, id, name, older, file, got, k.w.log);
    Collected(k, id, name, older, file, got, k.w.log);
    EofArrives(c, k, id, name, older, file, got, k.w.log, p);
    var e1, e2 := Indicated(TheReceiver, EofReceived, id), Indicated(TheReceiver, TransactionFinished, id);
    ReceiverRuns.Emitted(k.w, e1);
    ReceiverRuns.Emitted(Emit(k.w, e1), e2);
    assert ReceivePdu(c, k, Some(p)).w.log == Emit(Emit(k.w, e1), e2).log;
  }

  /** In terms of PDUs */
  lemma TransferAmid(a: Config, t: Transaction, file: seq<bv8>, word: Word, b: Config, k: Core, items: seq<Item>)
    requires |file| < UINT32 && CopiesWell(file) && IsFileTransfer(t)
    requires InFile(items, SegmentCount(|file|)) && forall i: nat | i < SegmentCount(|file|) :: i in Delivers(items)
    requires t.sourceName == LISTING_NAME ==> file == a.listing.buffer[..a.listing.size]
    requires UpToZero(t.sourceName) == t.sourceName && UpToZero(t.destinationName) == t.destinationName
    requires a.checksumType == b.checksumType && (a.checksumType.Modular? ==> !(1 <= |file| <= 3)) && ChecksumsAgree(a, b, t.sourceName, file)
    requires Willing(b, k.w.clock) && Fresh(k, IdOf(t.source, t.seqNumber)) && |Contents(k.w.files, t.destinationName)| <= |file|
    requires LeftAlone(b, ReceivePdu(b, k, Some(MetadataPdu(a, t, |file|))), HeaderOf(t), file, items, IdOf(t.source, t.seqNumber))
    ensures var k1 := After(b, ReceivePdu(b, k, Some(MetadataPdu(a, t, |file|))), HeaderOf(t), file, items);
      Done(ReceivePdu(b, k1, Some(EofPdu(HeaderOf(t), NoError, SourceSum(a, t.sourceName, file, word), |file|))),
           IdOf(t.source, t.seqNumber), t.destinationName, file)
  {
    hide Gathering, ReceivePdu, ValueOf, MinimalBytes, CopiesWell, UpToZero, SourceSum, SumOf, ChecksumsAgree, LeftAlone, After, Done;
    var id, name, older := IdOf(t.source, t.seqNumber), t.destinationName, Contents(k.w.files, t.destinationName);
    var m := MetadataPdu(a, t, |file|);
    var k0 := ReceivePdu(b, k, Some(m));
    HeaderId(t);
    HeaderDirection(t);
    MetadataGathers(b, k, m, file);
    ItemsArrive(b, k0, HeaderOf(t), file, items, id, name, older);
    var k1 := After(b, k0, HeaderOf(t), file, items);
    ChecksumsAgreeIff(a, b, t.sourceName, file, word, b.stale(k1.w.clock));
    EofFinishes(b, k1, id, name, older, file, Delivers(items), EofPdu(HeaderOf(t), NoError, SourceSum(a, t.sourceName, file, word), |file|));
  }

  /** End to end, with interruptions on both sides. A file is put, and its EOF, reporting no error, is sent
      after whatever interruptions. At a fresh receiver the frame of the Metadata arrives first and that of
      the EOF last; in between, those of the segments, in any order and with any repetitions, amid any calls
      that leave the transaction alone: puts and transfers of the receiving entity's own sender, reports,
      suspensions, freezes, bytes that do not decode, PDUs it does not serve. Then the stored file is the
      source file, and the receiver has finished without a fault, with exactly one finished indication. */
  lemma EndToEndAmid(a: Config, ka: Core, destination: nat, sourceName: Name, destinationName: Name, file: seq<bv8>, calls: seq<Call>,
                     b: Config, kb: Core, items: seq<Item>, first: Junk, last: Junk)
    requires var t := NextTransaction(a, ka, destination, sourceName, destinationName);
      Sends(a, t, file, ka.w) && FileStays(a, Put(a, ka, destination, sourceName, destinationName), calls, t, file) && NoPut(calls)
    requires var sent := SentSince(Run(a, Put(a, ka, destination, sourceName, destinationName), calls).w.log);
      sent != [] && IsComplete(sent[|sent| - 1])
    requires CopiesWell(file) && InFile(items, SegmentCount(|file|)) && forall i: nat | i < SegmentCount(|file|) :: i in Delivers(items)
    requires var t := NextTransaction(a, ka, destination, sourceName, destinationName);
      && a.checksumType == b.checksumType && (a.checksumType.Modular? ==> !(1 <= |file| <= 3)) && ChecksumsAgree(a, b, t.sourceName, file)
      && Willing(b, kb.w.clock) && Fresh(kb, IdOf(t.source, t.seqNumber)) && |Contents(kb.w.files, t.destinationName)| <= |file|
      && LeftAlone(b, ReceivePdu(b, kb, Some(MetadataPdu(a, t, |file|))), HeaderOf(t), file, items, IdOf(t.source, t.seqNumber))
    ensures var t := NextTransaction(a, ka, destination, sourceName, destinationName);
      var sent := SentSince(Run(a, Put(a, ka, destination, sourceName, destinationName), calls).w.log);
      && |sent| == SegmentCount(|file|) + 2 && AllEncodable(sent)
      && Done(Run(b, kb, [Arrival(sent[0], first)] + CallsOf(sent, items) + [Arrival(sent[|sent| - 1], last)]),
              IdOf(t.source, t.seqNumber), t.destinationName, file)
  {
    hide SentSince, Put, Run, Step, OnTrack, IsPartOf, FileStays, CopiesWell, ChecksumsAgree, ClippedName, Done, Arrival, CallsOf,
         TransferPdus, HeaderOf, UpToZero, SourceSum, After, Encodable, ReceivePdu, LeftAlone;
    var t := NextTransaction(a, ka, destination, sourceName, destinationName);
    var sent := SentSince(Run(a, Put(a, ka, destination, sourceName, destinationName), calls).w.log);
    InterruptedTransfer(a, ka, destination, sourceName, destinationName, file, calls);
    var word := CompleteTransfer(a, t, file, sent);
    NameArrives(sourceName); NameArrives(destinationName);
    TransferParts(a, t, file, word);
    var k0 := ReceivePdu(b, kb, Some(sent[0]));
    Arrives(b, kb, sent[0], first);
    CallsMake(b, k0, HeaderOf(t), file, sent, items);
    Arrives(b, After(b, k0, HeaderOf(t), file, items), sent[|sent| - 1], last);
    RunAround(b, kb, Arrival(sent[0], first), CallsOf(sent, items), Arrival(sent[|sent| - 1], last));
    TransferAmid(a, t, file, word, b, kb, items);
  }

  lemma TransferParts(c: Config, t: Transaction, file: seq<bv8>, word: Word)
    requires ValidIds(HeaderOf(t)) && |file| < UINT32 && |t.sourceName| < MAX_FILE_NAME && |t.destinationName| < MAX_FILE_NAME
    ensures var sum := SourceSum(c, t.sourceName, file, word);
      var sent := TransferPdus(c, t, file, sum);
      && AllEncodable(sent) && sent[0] == MetadataPdu(c, t, |file|) && sent[|sent| - 1] == EofPdu(HeaderOf(t), NoError, sum, |file|)
      && forall i | 0 <= i < SegmentCount(|file|) :: sent[1 + i] == SegmentPdu(HeaderOf(t), file, i)
  {
    hide HeaderOf, SegmentPdu, MetadataPdu, EofPdu, SourceSum, Encodable;
    var sum := SourceSum(c, t.sourceName, file, word);
    SumBound(c, t.sourceName, file, word);
    EndsEncodable(c, t, |file|, sum);
    forall i | 0 <= i < SegmentCount(|file|) ensures Encodable(SegmentPdu(HeaderOf(t), file, i)) { SegmentEncodable(HeaderOf(t), file, i); }
  }
}

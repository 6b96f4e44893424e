/** What the receiver does over every run: the received file size, terminal indications, acceptance of a
    file, and the fault path. */
module ReceiverRuns {
  import opened Integers
  import opened Pdus
  import opened Protocol
  import opened SenderRuns

  datatype Segment = Segment(offset: nat, data: seq<bv8>)

  /** The segments stored since the receiver last started a transaction. */
  function StoredSince(log: seq<Effect>): seq<Segment> {
    if log == [] then []
    else
      var stored := StoredSince(log[..|log| - 1]);
      match log[|log| - 1]
      case Started(TheReceiver, _) => []
      case Stored(_, offset, data) => stored + [Segment(offset, data)]
      case _ => stored
  }

  function SegmentEnd(s: Segment): nat { s.offset + |s.data| }

  /** m is the largest end of a segment, 0 without segments. */
  predicate IsMark(m: nat, stored: seq<Segment>) {
    && (forall i | 0 <= i < |stored| :: SegmentEnd(stored[i]) <= m)
    && (m == 0 || exists i | 0 <= i < |stored| :: SegmentEnd(stored[i]) == m)
  }

  /** No segment reaches 2^32. */
  predicate Fits(stored: seq<Segment>) {
    forall i | 0 <= i < |stored| :: SegmentEnd(stored[i]) < UINT32
  }

  predicate IsWaiting(r: Receiver) { r.state == WaitForMd || r.state == WaitForEof }

  predicate ReceiverGood(r: Receiver, log: seq<Effect>) {
    && (IsWaiting(r) || r.state == Completed)
    && TerminalsSince(log, TheReceiver) <= 1
    && (IsWaiting(r) ==>
        && TerminalsSince(log, TheReceiver) == 0
        && r.condition.NoError?
        && r.receivedFileSize < UINT32
        && (Fits(StoredSince(log)) <==> IsMark(r.receivedFileSize, StoredSince(log))))
  }

  lemma Emitted(w: World, e: Effect)
    ensures var log := Emit(w, e).log;
      && StoredSince(log) == (match e case Started(TheReceiver, _) => [] case Stored(_, offset, data) => StoredSince(w.log) + [Segment(offset, data)] case _ => StoredSince(w.log))
      && TerminalsSince(log, TheReceiver) == (if e.Started? && e.role.TheReceiver? then 0 else TerminalsSince(w.log, TheReceiver) + (if IsTerminal(e, TheReceiver) then 1 else 0))
  {
    var log := Emit(w, e).log;
    assert log[..|log| - 1] == w.log && log[|log| - 1] == e;
  }

  predicate SameReceiverLog(a: seq<Effect>, b: seq<Effect>) {
    StoredSince(a) == StoredSince(b) && TerminalsSince(a, TheReceiver) == TerminalsSince(b, TheReceiver)
  }

  /** Entries that say nothing about the receiver's transaction: errors, everything the sender tells, and
      the receiver's other indications. */
  predicate Neutral(e: Effect) {
    match e
    case Started(role, _) => role.TheSender?
    case Indicated(_, _, _) => !IsTerminal(e, TheReceiver)
    case Sent(_) => true
    case Stored(_, _, _) => false
    case Error(_) => true
  }

  lemma NeutralEmitted(w: World, e: Effect)
    requires Neutral(e)
    ensures SameReceiverLog(w.log, Emit(w, e).log) && SameReceiverLog(w.log, Emit(Tick(w), e).log)
  {
    Emitted(w, e); Emitted(Tick(w), e);
  }

  // ---------- the sender leaves the receiver alone ----------

  lemma TransmitNeutral(c: Config, s: Sender, w: World, p: Pdu)
    ensures SameReceiverLog(w.log, Transmit(c, s, w, p).w.log) && Transmit(c, s, w, p).w.files == w.files
  {
    hide SameReceiverLog, Encodable;
    NeutralEmitted(w, Error(Asn1sccError)); NeutralEmitted(w, Error(TransportError)); NeutralEmitted(w, Sent(p));
  }

  lemma FileDataNeutral(c: Config, s: Sender, w: World)
    requires !IsSendComplete(s.transaction)
    ensures var a := TransmitFileData(c, s, w); SameReceiverLog(w.log, a.w.log) && a.w.files == w.files
  {
    hide Transmit, SameReceiverLog;
    var t := s.transaction;
    var file, n := SourceFile(c, w.files, t.sourceName), SegmentLength(t);
    NeutralEmitted(w, Error(FilestoreError));
    if (t.sourceName == LISTING_NAME || c.answers(w.clock)) && t.filePosition + n <= |file| {
      TransmitNeutral(c, s.(transaction := t.(filePosition := t.filePosition + n)), Tick(w),
                      Pdu(HeaderOf(t), FileData(t.filePosition, CStrings.Copied(file[t.filePosition..t.filePosition + n]))));
    }
  }

  lemma TellsNeutral(s: Sender, w: World)
    ensures SameReceiverLog(w.log, Tell(s, w, TransactionFinished).log)
    ensures SameReceiverLog(w.log, Tell(s, Tell(s, w, EofSent), TransactionFinished).log)
  {
    hide StoredSince, TerminalsSince;
    NeutralEmitted(w, Indicated(TheSender, TransactionFinished, s.id));
    NeutralEmitted(w, Indicated(TheSender, EofSent, s.id));
    NeutralEmitted(Tell(s, w, EofSent), Indicated(TheSender, TransactionFinished, s.id));
  }

  lemma EofNeutral(c: Config, s: Sender, w: World)
    ensures var a := TransmitEof(c, s, w); SameReceiverLog(w.log, a.w.log) && a.w.files == w.files
  {
    hide Transmit, StoredSince, TerminalsSince;
    TransmitNeutral(c, s.(transaction := Sized(c, s.transaction, w)), Tick(w), EofOf(c, s, w));
  }

  lemma {:induction false} LoopNeutral(c: Config, s: Sender, w: World)
    requires s.state == SendFile
    ensures var w' := SendLoop(c, s, w).1; SameReceiverLog(w.log, w'.log) && w'.files == w.files
    decreases if IsSendComplete(s.transaction) then 0 else s.transaction.fileSize - s.transaction.filePosition
  {
    hide StoredSince, TerminalsSince, TransmitFileData, TransmitEof;
    if !IsPaused(s) && c.answers(w.clock) {
      if IsSendComplete(s.transaction) {
        EofNeutral(c, s, Tick(w));
        TellsNeutral(s, TransmitEof(c, s, Tick(w)).w);
      } else {
        FileDataNeutral(c, s, Tick(w));
        var a := TransmitFileData(c, s, Tick(w));
        if a.ok {
          FileDataAdvances(c, s, Tick(w));
          LoopNeutral(c, a.s, a.w);
        }
      }
    }
  }

  lemma CancelledNeutral(c: Config, s: Sender, w: World)
    ensures var w' := SenderCancelled(c, s, w).1; SameReceiverLog(w.log, w'.log) && w'.files == w.files
  {
    hide StoredSince, TerminalsSince, TransmitEof;
    EofNeutral(c, s, w);
    TellsNeutral(s, TransmitEof(c, s, w).w);
  }

  /** No event of the sender adds to what the log says about the receiver, or changes a file. */
  lemma SenderStepNeutral(c: Config, s: Sender, w: World, e: Event, t: Transaction)
    ensures var w' := SenderStep(c, s, w, e, t).1; SameReceiverLog(w.log, w'.log) && w'.files == w.files
  {
    hide StoredSince, TerminalsSince, SendLoop, SenderCancelled, SenderPut;
    NeutralEmitted(w, Error(UnsupportedAction)); NeutralEmitted(w, Started(TheSender, IdOf(t.source, t.seqNumber)));
    NeutralEmitted(w, Indicated(TheSender, Abandoned, s.id)); NeutralEmitted(w, Indicated(TheSender, Suspended, s.id));
    NeutralEmitted(w, Indicated(TheSender, Resumed, s.id)); NeutralEmitted(w, Indicated(TheSender, Report, s.id));
    CancelledNeutral(c, s, w); CancelledNeutral(c, s.(condition := CancelRequestReceived), w);
    if s.state == SendFile {
      hide SameReceiverLog;
      LoopNeutral(c, s, w); LoopNeutral(c, s.(isFrozen := false), w);
      ResumedNeutral(c, s, w);
    } else if s.state == SendMetadata {
      SenderPutNeutral(c, s, w);
    }
  }

  lemma ResumedNeutral(c: Config, s: Sender, w: World)
    requires s.state == SendFile
    ensures var w' := SendLoop(c, s.(isSuspended := false), Tell(s, w, Resumed)).1; SameReceiverLog(w.log, w'.log) && w'.files == w.files
  {
    hide StoredSince, TerminalsSince, SendLoop;
    NeutralEmitted(w, Indicated(TheSender, Resumed, s.id));
    LoopNeutral(c, s.(isSuspended := false), Tell(s, w, Resumed));
  }

  lemma SenderPutNeutral(c: Config, s: Sender, w: World)
    ensures var w' := SenderPut(c, s, w).1; SameReceiverLog(w.log, w'.log) && w'.files == w.files
  {
    hide StoredSince, TerminalsSince, SendLoop, TransmitEof, Transmit;
    var w1 := Tell(s, w, TransactionStarted);
    NeutralEmitted(w, Indicated(TheSender, TransactionStarted, s.id));
    TransmitNeutral(c, s.(transaction := Sized(c, s.transaction, w1)), w1, MetadataOf(c, s.transaction, w1));
    var a := TransmitMetadata(c, s, w1);
    EofNeutral(c, a.s, a.w);
    TellsNeutral(a.s, TransmitEof(c, a.s, a.w).w);
    LoopNeutral(c, a.s.(state := SendFile), a.w);
  }

  // ---------- the fault path ----------

  /** With the default actions a fault finishes the receiver as cancelled. When the sender has the same
      transaction id, the request goes to the sender instead. */
  function FaultOutcome(c: Config, k: Core): Core {
    if k.receiver.id == k.sender.id then SenderEvent(c, k, E33ReceivedCancelRequest)
    else FinishReceiver(WithCondition(k, CancelRequestReceived))
  }

  lemma FaultPath(c: Config, k: Core, condition: ConditionCode)
    requires IsWaiting(k.receiver) && !condition.NoError?
    ensures RunFaultHandler(c, k, k.receiver.id, DefaultAction(condition)) == FaultOutcome(c, k)
  {
    hide SenderEvent;
  }

  /** What an event does to a waiting receiver is a fault. */
  predicate IsFault(c: Config, k: Core, e: Event, p: Option<Payload>)
    requires Accompanied(e, p)
  {
    e.E27InactivityTimeout?
    || (e.E12ReceivedEofNoError? && k.receiver.state == WaitForEof && IsFileTransfer(k.receiver.transaction)
        && !Acceptable(c, k, p.value.checksum, p.value.fileSize))
  }

  /** The received file is no longer than announced and has the announced checksum. */
  predicate Acceptable(c: Config, k: Core, checksum: nat, fileSize: nat) {
    k.receiver.receivedFileSize <= fileSize && ChecksumOf(c, k.receiver.transaction.destinationName, k.w) == checksum
  }

  /** The receiver's indications after a fault: the EOF, if there was one, and one finished indication. */
  function FaultLog(k: Core, e: Event): seq<Effect> {
    (if e.E12ReceivedEofNoError? then [Indicated(TheReceiver, EofReceived, k.receiver.id)] else [])
    + [Indicated(TheReceiver, TransactionFinished, k.receiver.id)]
  }

  lemma TimeoutIs(c: Config, k: Core, t: Transaction, p: Option<Payload>)
    requires IsWaiting(k.receiver)
    ensures ReceiverStep(c, k, E27InactivityTimeout, t, p) == RunFaultHandler(c, k, k.receiver.id, DefaultAction(InactivityDetected))
  {
    hide RunFaultHandler;
  }

  lemma EofIs(c: Config, k: Core, t: Transaction, p: Payload)
    requires k.receiver.state == WaitForEof && p.Eof?
    ensures ReceiverStep(c, k, E12ReceivedEofNoError, t, Some(p)) == ReceiveEof(c, k, p.checksum, p.fileSize)
  {
    hide ReceiveEof;
  }

  /** What a fault or its absence makes of an EOF. */
  lemma ReceiveEofIs(c: Config, k: Core, checksum: nat, fileSize: nat)
    requires k.receiver.state == WaitForEof && IsFileTransfer(k.receiver.transaction)
    ensures var k1 := Notify(k, EofReceived);
      var k2 := k1.(w := Tick(k1.w));
      ReceiveEof(c, k, checksum, fileSize)
      == if k.receiver.receivedFileSize > fileSize then FaultOutcome(c, k1)
         else if Acceptable(c, k, checksum, fileSize) then FinishReceiver(k2)
         else DeleteStoredFile(c, FaultOutcome(c, k2))
  {
    hide RunFaultHandler, DefaultAction, SenderEvent, SumOf, DeleteStoredFile;
    var k1 := Notify(k, EofReceived);
    FaultPath(c, k1, FileSizeError);
    FaultPath(c, k1.(w := Tick(k1.w)), FileChecksumFailure);
  }

  /** A size error, a checksum failure or an inactivity timeout completes the receiver as cancelled, with
      exactly one finished indication; a checksum failure deletes the file as well, if the filestore
      agrees. */
  lemma FaultCompletes(c: Config, k: Core, e: Event, t: Transaction, p: Option<Payload>)
    requires Accompanied(e, p) && IsWaiting(k.receiver) && IsFault(c, k, e, p) && k.receiver.id != k.sender.id
    ensures var k' := ReceiverStep(c, k, e, t, p);
      && k'.receiver == k.receiver.(state := Completed, condition := CancelRequestReceived)
      && k'.sender == k.sender
      && var failed := e.E12ReceivedEofNoError? && k.receiver.receivedFileSize <= p.value.fileSize;
      && k'.w.log == k.w.log + FaultLog(k, e) + (if failed && !c.answers(k.w.clock + 1) then [Error(FilestoreError)] else [])
      && k'.w.files == (if failed && c.answers(k.w.clock + 1) then k.w.files - {k.receiver.transaction.destinationName} else k.w.files)
  {
    hide RunFaultHandler, Acceptable, ReceiverStep, ReceiveEof, SenderEvent;
    if e.E27InactivityTimeout? {
      TimeoutIs(c, k, t, p);
      FaultPath(c, k, InactivityDetected);
    } else {
      EofIs(c, k, t, p.value);
      ReceiveEofIs(c, k, p.value.checksum, p.value.fileSize);
    }
  }

  /** The checksum is wrong and the filestore refuses to delete the file. */
  predicate DeletionRefused(c: Config, k: Core, e: Event, p: Option<Payload>)
    requires Accompanied(e, p)
  {
    var k1 := Notify(k, EofReceived);
    e.E12ReceivedEofNoError? && k.receiver.receivedFileSize <= p.value.fileSize && !c.answers(FaultOutcome(c, k1.(w := Tick(k1.w))).w.clock)
  }

  /** A fault completes the receiver if and only if the sender's transaction id is another one, or the
      file cannot be deleted. */
  lemma FaultCompletesIff(c: Config, k: Core, e: Event, t: Transaction, p: Option<Payload>)
    requires Accompanied(e, p) && IsWaiting(k.receiver) && IsFault(c, k, e, p)
    ensures ReceiverStep(c, k, e, t, p).receiver.state == Completed <==> k.receiver.id != k.sender.id || DeletionRefused(c, k, e, p)
  {
    hide RunFaultHandler, Acceptable, ReceiverStep, ReceiveEof, SenderStep;
    if e.E27InactivityTimeout? {
      TimeoutIs(c, k, t, p);
      FaultPath(c, k, InactivityDetected);
    } else {
      EofIs(c, k, t, p.value);
      ReceiveEofIs(c, k, p.value.checksum, p.value.fileSize);
    }
  }

  /** On an EOF that reports no error a file transfer completes without a fault exactly when what was
      received is acceptable. */
  lemma AcceptedIff(c: Config, k: Core, t: Transaction, p: Payload)
    requires p.Eof? && k.receiver.state == WaitForEof && k.receiver.condition.NoError? && k.receiver.id != k.sender.id
    requires IsFileTransfer(k.receiver.transaction)
    ensures var k' := ReceiverStep(c, k, E12ReceivedEofNoError, t, Some(p));
      && k'.receiver.state == Completed
      && (k'.receiver.condition.NoError? <==> Acceptable(c, k, p.checksum, p.fileSize))
      && (k'.receiver.condition.NoError? ==> k'.w.files == k.w.files && k'.w.log == k.w.log + FaultLog(k, E12ReceivedEofNoError))
  {
    hide RunFaultHandler, ReceiverStep, ReceiveEof, ChecksumOf;
    EofIs(c, k, t, p);
    ReceiveEofIs(c, k, p.checksum, p.fileSize);
  }

  // ---------- the invariant ----------

  lemma SameLogGood(r: Receiver, a: seq<Effect>, b: seq<Effect>)
    requires ReceiverGood(r, a) && SameReceiverLog(a, b)
    ensures ReceiverGood(r, b)
  {
    hide StoredSince, TerminalsSince;
  }

  lemma SenderEventGood(c: Config, k: Core, e: Event)
    requires ReceiverGood(k.receiver, k.w.log)
    ensures var k' := SenderEvent(c, k, e); ReceiverGood(k'.receiver, k'.w.log)
  {
    hide ReceiverGood, SenderStep, SameReceiverLog;
    SenderStepNeutral(c, k.sender, k.w, e, k.sender.transaction);
    SameLogGood(k.receiver, k.w.log, SenderStep(c, k.sender, k.w, e, k.sender.transaction).1.log);
  }

  lemma NeutralGood(k: Core, e: Effect)
    requires ReceiverGood(k.receiver, k.w.log) && Neutral(e)
    ensures ReceiverGood(k.receiver, Emit(k.w, e).log) && ReceiverGood(k.receiver, Emit(Tick(k.w), e).log)
  {
    NeutralEmitted(k.w, e);
    SameLogGood(k.receiver, k.w.log, Emit(k.w, e).log);
    SameLogGood(k.receiver, k.w.log, Emit(Tick(k.w), e).log);
  }

  /** Closing a waiting receiver with its one terminal indication. */
  lemma ClosedGood(k: Core, i: Indication, condition: ConditionCode)
    requires ReceiverGood(k.receiver, k.w.log) && IsWaiting(k.receiver)
    ensures var k' := CloseReceiver(Notify(WithCondition(k, condition), i)); ReceiverGood(k'.receiver, k'.w.log)
  {
    Emitted(k.w, Indicated(TheReceiver, i, k.receiver.id));
  }

  lemma InitGood(k: Core, t: Transaction)
    requires k.receiver.state == WaitForMd
    ensures var k' := InitReceiver(k, t); ReceiverGood(k'.receiver, k'.w.log) && k'.receiver.state == WaitForMd
  {
    Emitted(k.w, Started(TheReceiver, IdOf(t.source, t.seqNumber)));
  }

  lemma MarkGrows(m: nat, stored: seq<Segment>, s: Segment)
    requires m < UINT32 && (Fits(stored) <==> IsMark(m, stored))
    ensures Fits(stored + [s]) <==> IsMark(if m < SegmentEnd(s) then SegmentEnd(s) % UINT32 else m, stored + [s])
  {
    var more := stored + [s];
    assert more[|stored|] == s;
    assert forall i | 0 <= i < |stored| :: more[i] == stored[i];
    assert Fits(more) ==> Fits(stored);
  }

  lemma StoreGood(c: Config, k: Core, offset: nat, data: seq<bv8>)
    requires ReceiverGood(k.receiver, k.w.log) && IsWaiting(k.receiver)
    ensures var k' := StoreSegment(c, k, offset, data); ReceiverGood(k'.receiver, k'.w.log)
  {
    hide WriteAt, IsMark, Fits, StoredSince, TerminalsSince;
    var name := k.receiver.transaction.destinationName;
    NeutralGood(k, Error(FilestoreError));
    Emitted(Tick(k.w), Stored(name, offset, data));
    MarkGrows(k.receiver.receivedFileSize, StoredSince(k.w.log), Segment(offset, data));
  }

  lemma DeleteGood(c: Config, k: Core)
    requires ReceiverGood(k.receiver, k.w.log)
    ensures var k' := DeleteStoredFile(c, k); ReceiverGood(k'.receiver, k'.w.log)
  {
    hide StoredSince, TerminalsSince;
    NeutralGood(k, Error(FilestoreError));
  }

  lemma FaultGood(c: Config, k: Core, condition: ConditionCode)
    requires ReceiverGood(k.receiver, k.w.log) && IsWaiting(k.receiver) && !condition.NoError?
    ensures var k' := RunFaultHandler(c, k, k.receiver.id, DefaultAction(condition)); ReceiverGood(k'.receiver, k'.w.log)
  {
    hide ReceiverGood, RunFaultHandler, SenderEvent;
    FaultPath(c, k, condition);
    SenderEventGood(c, k, E33ReceivedCancelRequest);
    ClosedGood(k, TransactionFinished, CancelRequestReceived);
  }

  lemma SameCondition(k: Core)
    ensures WithCondition(k, k.receiver.condition) == k
  {}

  lemma ReceiveEofGood(c: Config, k: Core, checksum: nat, fileSize: nat)
    requires ReceiverGood(k.receiver, k.w.log) && IsWaiting(k.receiver)
    ensures var k' := ReceiveEof(c, k, checksum, fileSize); ReceiverGood(k'.receiver, k'.w.log)
  {
    hide ReceiverGood, ChecksumOf, RunFaultHandler, DefaultAction, DeleteStoredFile;
    var k1 := Notify(k, EofReceived);
    var k2 := k1.(w := Tick(k1.w));
    NeutralGood(k, Indicated(TheReceiver, EofReceived, k.receiver.id));
    FaultGood(c, k1, FileSizeError);
    FaultGood(c, k2, FileChecksumFailure);
    DeleteGood(c, RunFaultHandler(c, k2, k.receiver.id, DefaultAction(FileChecksumFailure)));
    SameCondition(k1); SameCondition(k2);
    ClosedGood(k1, TransactionFinished, k1.receiver.condition);
    ClosedGood(k2, TransactionFinished, k2.receiver.condition);
  }

  /** Every event keeps the receiver's invariant. */
  lemma ReceiverStepGood(c: Config, k: Core, e: Event, t: Transaction, p: Option<Payload>)
    requires Accompanied(e, p) && ReceiverGood(k.receiver, k.w.log) && (e.E33ReceivedCancelRequest? ==> k.receiver.id != k.sender.id)
    ensures var k' := ReceiverStep(c, k, e, t, p); ReceiverGood(k'.receiver, k'.w.log)
  {
    hide StoredSince, TerminalsSince, IsMark, Fits, ReceiveEof, StoreSegment, RunFaultHandler, DefaultAction;
    if IsWaiting(k.receiver) {
      match e
      case E27InactivityTimeout => FaultGood(c, k, InactivityDetected);
      case E33ReceivedCancelRequest => ClosedGood(k, TransactionFinished, CancelRequestReceived);
      case E13ReceivedEofCancel => ClosedGood(k, TransactionFinished, p.value.condition);
      case E3NoticeOfCancellation => SameCondition(k); ClosedGood(k, TransactionFinished, k.receiver.condition);
      case E2AbandonTransaction => SameCondition(k); ClosedGood(k, Abandoned, k.receiver.condition);
      case E12ReceivedEofNoError =>
        SameCondition(k); ClosedGood(k, TransactionFinished, k.receiver.condition);
        ReceiveEofGood(c, k, p.value.checksum, p.value.fileSize);
      case E11ReceivedFileData =>
        NeutralGood(k, Indicated(TheReceiver, FileSegmentReceived, k.receiver.id)); NeutralGood(k, Error(UnsupportedAction));
        StoreGood(c, Notify(k, FileSegmentReceived), p.value.offset, p.value.data);
      case E0EnteredState =>
        NeutralGood(k, Error(UnsupportedAction));
        if k.receiver.state == WaitForMd { InitGood(k, t); }
      case _ =>
        NeutralGood(k, Error(UnsupportedAction)); NeutralGood(k, Indicated(TheReceiver, Report, k.receiver.id));
        NeutralGood(k, Indicated(TheReceiver, MetadataReceived, k.receiver.id));
    }
  }

  lemma IssueGood(c: Config, k: Core, id: TransactionId, e: Event)
    requires Accompanied(e, None) && ReceiverGood(k.receiver, k.w.log)
    ensures var k' := IssueRequest(c, k, id, e); ReceiverGood(k'.receiver, k'.w.log)
  {
    hide ReceiverGood, SenderEvent, ReceiverStep;
    SenderEventGood(c, k, e);
    if id != k.sender.id && id == k.receiver.id { ReceiverStepGood(c, k, e, k.receiver.transaction, None); }
  }

  lemma DeliverGood(c: Config, k: Core, p: Payload)
    requires ReceiverGood(k.receiver, k.w.log)
    ensures var k' := DeliverToReceiver(c, k, p); ReceiverGood(k'.receiver, k'.w.log)
  {
    hide ReceiverGood, ReceiverStep;
    NeutralGood(k, Error(UnsupportedAction));
    ReceiverStepGood(c, Announced(k, p), EventOf(p), k.receiver.transaction, Some(p));
  }

  lemma NewReceiverGood(c: Config, k: Core, p: Pdu)
    requires ReceiverGood(k.receiver, k.w.log)
    ensures var k' := NewReceiver(c, k, p); ReceiverGood(k'.receiver, k'.w.log)
  {
    hide ReceiverGood, DeliverToReceiver, TransactionOf;
    NeutralGood(k, Error(UnsupportedAction));
    var k1 := k.(receiver := k.receiver.(state := WaitForMd));
    InitGood(k1, TransactionOf(p));
    DeliverGood(c, InitReceiver(k1, TransactionOf(p)), p.payload);
  }

  lemma ReceivePduGood(c: Config, k: Core, pdu: Option<Pdu>)
    requires ReceiverGood(k.receiver, k.w.log)
    ensures var k' := ReceivePdu(c, k, pdu); ReceiverGood(k'.receiver, k'.w.log)
  {
    hide ReceiverGood, SenderEvent, DeliverToReceiver, NewReceiver, PduId;
    NeutralGood(k, Error(UnsupportedAction)); NeutralGood(k, Error(Asn1sccError));
    if pdu.Some? {
      var p := pdu.value.payload;
      SenderEventGood(c, Announced(k, p), EventOf(p));
      DeliverGood(c, k, p);
      NewReceiverGood(c, k, pdu.value);
    }
  }

  lemma PutGood(c: Config, k: Core, destination: nat, sourceName: Name, destinationName: Name)
    requires ReceiverGood(k.receiver, k.w.log)
    ensures var k' := Put(c, k, destination, sourceName, destinationName); ReceiverGood(k'.receiver, k'.w.log)
  {
    hide StoredSince, TerminalsSince, ReceiverGood, SenderStep, ClippedName;
    var t := Transaction(c.entityId, (k.seqNumber + 1) % UINT32, destination, ClippedName(sourceName), ClippedName(destinationName), 0, 0);
    var (s1, w1) := SenderStep(c, k.sender.(state := SendMetadata), k.w, E0EnteredState, t);
    SenderStepNeutral(c, k.sender.(state := SendMetadata), k.w, E0EnteredState, t);
    SenderStepNeutral(c, s1, w1, E30ReceivedPutRequest, t);
    SameLogGood(k.receiver, k.w.log, SenderStep(c, s1, w1, E30ReceivedPutRequest, t).1.log);
  }

  /** Every public call keeps the receiver's invariant. */
  lemma StepGood(c: Config, k: Core, call: Call)
    requires ReceiverGood(k.receiver, k.w.log)
    ensures var k' := Step(c, k, call); ReceiverGood(k'.receiver, k'.w.log)
  {
    hide ReceiverGood, SenderEvent, IssueRequest, ReceivePdu, Put;
    match call
    case CallPut(destination, sourceName, destinationName) => PutGood(c, k, destination, sourceName, destinationName);
    case CallCancel(id) => IssueGood(c, k, id, E33ReceivedCancelRequest);
    case CallSuspend(id) => IssueGood(c, k, id, E31ReceivedSuspendRequest);
    case CallResume(id) => IssueGood(c, k, id, E32ReceivedResumeRequest);
    case CallReport(id) => IssueGood(c, k, id, E34ReceivedReportRequest);
    case CallFreeze(_) => SenderEventGood(c, k, E40ReceivedFreeze);
    case CallThaw(_) => SenderEventGood(c, k, E41ReceivedThaw);
    case CallTransportReady => IssueGood(c, k, k.sender.id, E1SendFileData);
    case CallReceived(pdu) => ReceivePduGood(c, k, pdu);
    case CallTimerExpired => IssueGood(c, k, k.receiver.id, E27InactivityTimeout);
  }

  /** In every run: between calls the receiver waits for Metadata, waits for the EOF or is done; it gives
      at most one terminal indication in a transaction, none while it waits; and while it waits the
      received file size is the largest end of a stored segment if and only if none reaches 2^32. */
  lemma {:induction false} ReceiverRun(c: Config, k: Core, calls: seq<Call>)
    requires Initial(k)
    ensures var k' := Run(c, k, calls);
      && (IsWaiting(k'.receiver) || k'.receiver.state == Completed)
      && TerminalsSince(k'.w.log, TheReceiver) <= 1
      && (IsWaiting(k'.receiver) ==>
          && TerminalsSince(k'.w.log, TheReceiver) == 0 && k'.receiver.condition.NoError? && k'.receiver.receivedFileSize < UINT32
          && (Fits(StoredSince(k'.w.log)) <==> IsMark(k'.receiver.receivedFileSize, StoredSince(k'.w.log))))
  {
    hide Step, StoredSince, TerminalsSince, IsMark, Fits;
    if calls != [] {
      ReceiverRun(c, k, calls[..|calls| - 1]);
      StepGood(c, Run(c, k, calls[..|calls| - 1]), calls[|calls| - 1]);
    } else {
      NothingYet();
    }
  }

  /** In every run: an EOF that reports no error completes a file transfer without a fault exactly when
      no stored segment ends beyond the EOF's file size and the stored file has the EOF's checksum. */
  lemma AcceptedRun(c: Config, k: Core, calls: seq<Call>, p: Payload)
    requires Initial(k) && p.Eof?
    ensures var k1 := Run(c, k, calls);
      var k' := ReceiverStep(c, k1, E12ReceivedEofNoError, k1.receiver.transaction, Some(p));
      var stored := StoredSince(k1.w.log);
      k1.receiver.state == WaitForEof && IsFileTransfer(k1.receiver.transaction)
      && k1.receiver.id != k1.sender.id && Fits(stored)
      ==> && k'.receiver.state == Completed
          && (k'.receiver.condition.NoError? <==>
              && (forall i | 0 <= i < |stored| :: SegmentEnd(stored[i]) <= p.fileSize)
              && ChecksumOf(c, k1.receiver.transaction.destinationName, k1.w) == p.checksum)
  {
    hide Run, ReceiverStep, ChecksumOf, StoredSince, TerminalsSince;
    ReceiverRun(c, k, calls);
    var k1 := Run(c, k, calls);
    if k1.receiver.state == WaitForEof && IsFileTransfer(k1.receiver.transaction) && k1.receiver.id != k1.sender.id {
      AcceptedIff(c, k1, k1.receiver.transaction, p);
    }
  }

  lemma NothingYet()
    ensures TerminalsSince([], TheReceiver) == 0 && StoredSince([]) == []
  {}

  /** A segment that ends at 2^32 or beyond is remembered by the low 32 bits of its end only. */
  lemma MarkWraps(c: Config, k: Core, b: bv8)
    requires c.answers(k.w.clock) && k.receiver.receivedFileSize < UINT32
    ensures StoreSegment(c, k, UINT32 - 1, [b]).receiver.receivedFileSize == 0
  {
    hide WriteAt;
  }
}

/** What the sender does over every run: the PDUs of one transaction, pauses, and terminal indications. */
module SenderRuns {
  import opened Integers
  import opened Pdus
  import opened Protocol

  // ---------- what the log says about the sender's current transaction ----------

  /** The PDUs sent since the sender last started a transaction. */
  function SentSince(log: seq<Effect>): seq<Pdu> {
    if log == [] then []
    else
      var sent := SentSince(log[..|log| - 1]);
      match log[|log| - 1]
      case Started(TheSender, _) => []
      case Sent(pdu) => sent + [pdu]
      case _ => sent
  }

  predicate IsTerminal(e: Effect, role: Role) {
    e.Indicated? && e.role == role && (e.indication.TransactionFinished? || e.indication.Abandoned?)
  }

  /** How many terminal indications a machine gave since it last started a transaction. */
  function TerminalsSince(log: seq<Effect>, role: Role): nat {
    if log == [] then 0
    else
      var n, e := TerminalsSince(log[..|log| - 1], role), log[|log| - 1];
      if e.Started? && e.role == role then 0 else if IsTerminal(e, role) then n + 1 else n
  }

  /** Whether the sender's user was told last that the transaction is suspended. */
  function ToldSuspended(log: seq<Effect>): bool {
    if log == [] then false
    else
      match log[|log| - 1]
      case Started(TheSender, _) => false
      case Indicated(TheSender, Suspended, _) => true
      case Indicated(TheSender, Resumed, _) => false
      case _ => ToldSuspended(log[..|log| - 1])
  }

  /** FileData, and the EOF that says the file is complete */
  predicate Progress(e: Effect) {
    e.Sent? && (e.pdu.payload.FileData? || (e.pdu.payload.Eof? && e.pdu.payload.condition.NoError?))
  }

  /** Suspended and resumed alternate, starting with suspended, and there is no progress in between. */
  predicate Paced(log: seq<Effect>) {
    log == [] ||
    (var e, before := log[|log| - 1], log[..|log| - 1];
     && Paced(before)
     && (e.Indicated? && e.role.TheSender? && e.indication.Suspended? ==> !ToldSuspended(before))
     && (e.Indicated? && e.role.TheSender? && e.indication.Resumed? ==> ToldSuspended(before))
     && (Progress(e) ==> !ToldSuspended(before)))
  }

  /** All PDUs sent that make progress. */
  function ProgressIn(log: seq<Effect>): seq<Pdu> {
    if log == [] then []
    else if Progress(log[|log| - 1]) then ProgressIn(log[..|log| - 1]) + [log[|log| - 1].pdu] else ProgressIn(log[..|log| - 1])
  }

  // ---------- the PDUs of one transaction ----------

  function EndOffset(p: Payload): nat { if p.FileData? then p.offset + |p.data| else 0 }

  /** Metadata, then FileData without gaps from offset 0 on; only the last segment may be short. */
  predicate InOrder(sent: seq<Pdu>) {
    && |sent| > 0 && sent[0].payload.Metadata?
    && forall i | 1 <= i < |sent| :: Follows(sent[0].payload.size, sent[i - 1].payload, sent[i].payload)
  }

  /** p is FileData that starts where the PDU before it ends, in a file of the given size. */
  predicate Follows(size: nat, before: Payload, p: Payload) {
    && p.FileData? && p.offset == EndOffset(before)
    && 0 < |p.data| <= SEGMENT && EndOffset(p) <= size
    && (|p.data| == SEGMENT || EndOffset(p) == size)
  }

  predicate AnnouncesFile(p: Payload) { p.Metadata? && p.sourceName != [] && p.destinationName != [] }

  predicate IsComplete(p: Pdu) { p.payload.Eof? && p.payload.condition.NoError? }

  /** A prefix of Metadata, contiguous FileData, one EOF; for a file the EOF reports no error only when
      the data reaches the announced size. */
  predicate TransferTrace(sent: seq<Pdu>) {
    || sent == []
    || InOrder(sent)
    || (var n := |sent| - 1;
        && sent[n].payload.Eof? && InOrder(sent[..n])
        && (AnnouncesFile(sent[0].payload) && IsComplete(sent[n]) ==> EndOffset(sent[n - 1].payload) == sent[0].payload.size))
  }

  // ---------- the invariant ----------

  predicate Sending(s: Sender, log: seq<Effect>) {
    var sent := SentSince(log);
    && InOrder(sent) && AnnouncesFile(sent[0].payload) && sent[0].payload.size == s.transaction.fileSize
    && EndOffset(sent[|sent| - 1].payload) == s.transaction.filePosition <= s.transaction.fileSize
    && IsFileTransfer(s.transaction)
    && s.condition.NoError?
    && TerminalsSince(log, TheSender) == 0
    && ToldSuspended(log) == s.isSuspended
  }

  predicate Told(s: Sender, log: seq<Effect>) {
    Paced(log) && ToldSuspended(log) == s.isSuspended
  }

  predicate SenderGood(s: Sender, log: seq<Effect>) {
    && (s.state == SendFile || s.state == Completed)
    && Paced(log)
    && TransferTrace(SentSince(log))
    && TerminalsSince(log, TheSender) <= 1
    && (s.state == SendFile ==> Sending(s, log))
  }

  /** One more entry in the log. */
  lemma Emitted(w: World, e: Effect)
    ensures var log := Emit(w, e).log;
      && SentSince(log) == (match e case Started(TheSender, _) => [] case Sent(pdu) => SentSince(w.log) + [pdu] case _ => SentSince(w.log))
      && TerminalsSince(log, TheSender) == (if e.Started? && e.role.TheSender? then 0 else TerminalsSince(w.log, TheSender) + (if IsTerminal(e, TheSender) then 1 else 0))
      && ToldSuspended(log) == (match e case Started(TheSender, _) => false case Indicated(TheSender, Suspended, _) => true case Indicated(TheSender, Resumed, _) => false case _ => ToldSuspended(w.log))
      && (Paced(log) <==> (Paced(w.log)
          && (e.Indicated? && e.role.TheSender? && e.indication.Suspended? ==> !ToldSuspended(w.log))
          && (e.Indicated? && e.role.TheSender? && e.indication.Resumed? ==> ToldSuspended(w.log))
          && (Progress(e) ==> !ToldSuspended(w.log))))
      && ProgressIn(log) == (if Progress(e) then ProgressIn(w.log) + [e.pdu] else ProgressIn(w.log))
  {
    var log := Emit(w, e).log;
    assert log[..|log| - 1] == w.log && log[|log| - 1] == e;
  }

  /** Errors and the receiver's entries say nothing about the sender. */
  predicate Foreign(e: Effect) {
    match e
    case Started(role, _) => role.TheReceiver?
    case Indicated(role, _, _) => role.TheReceiver?
    case Sent(_) => false
    case Stored(_, _, _) => true
    case Error(_) => true
  }

  predicate SameSenderLog(a: seq<Effect>, b: seq<Effect>) {
    && SentSince(a) == SentSince(b) && TerminalsSince(a, TheSender) == TerminalsSince(b, TheSender)
    && ToldSuspended(a) == ToldSuspended(b) && (Paced(a) ==> Paced(b)) && ProgressIn(a) == ProgressIn(b)
  }

  lemma ForeignEmitted(w: World, e: Effect)
    requires Foreign(e)
    ensures SameSenderLog(w.log, Emit(w, e).log)
  {
    Emitted(w, e);
  }

  /** Handing a PDU to the transport adds it to what was sent, or an error to the log. */
  lemma Transmitted(c: Config, s: Sender, w: World, p: Pdu)
    requires Told(s, w.log) && (Progress(Sent(p)) ==> !s.isSuspended)
    ensures var a := Transmit(c, s, w, p);
      && a.s == s && Told(s, a.w.log)
      && SentSince(a.w.log) == (if a.ok then SentSince(w.log) + [p] else SentSince(w.log))
      && TerminalsSince(a.w.log, TheSender) == TerminalsSince(w.log, TheSender)
  {
    hide SentSince, TerminalsSince, ToldSuspended, Paced, Encodable;
    Emitted(w, Error(Asn1sccError)); Emitted(Tick(w), Error(TransportError)); Emitted(Tick(w), Sent(p));
  }

  lemma AppendInOrder(sent: seq<Pdu>, p: Pdu)
    requires InOrder(sent) && Follows(sent[0].payload.size, sent[|sent| - 1].payload, p.payload)
    ensures InOrder(sent + [p])
  {}

  lemma FinalEof(sent: seq<Pdu>, p: Pdu)
    requires InOrder(sent) && p.payload.Eof?
    requires AnnouncesFile(sent[0].payload) && IsComplete(p) ==> EndOffset(sent[|sent| - 1].payload) == sent[0].payload.size
    ensures TransferTrace(sent + [p])
  {
    assert (sent + [p])[..|sent|] == sent;
  }

  /** Telling the sender's user something other than suspended and resumed. */
  lemma Telling(s: Sender, w: World, i: Indication)
    requires Told(s, w.log) && !i.Suspended? && !i.Resumed?
    ensures Told(s, Tell(s, w, i).log) && SentSince(Tell(s, w, i).log) == SentSince(w.log)
    ensures TerminalsSince(Tell(s, w, i).log, TheSender) == TerminalsSince(w.log, TheSender) + (if i.TransactionFinished? || i.Abandoned? then 1 else 0)
  {
    Emitted(w, Indicated(TheSender, i, s.id));
  }

  lemma {:induction false} LoopGood(c: Config, s: Sender, w: World)
    requires s.state == SendFile && SenderGood(s, w.log)
    ensures var (s', w') := SendLoop(c, s, w); SenderGood(s', w'.log)
    decreases if IsSendComplete(s.transaction) then 0 else s.transaction.fileSize - s.transaction.filePosition
  {
    hide SentSince, TerminalsSince, ToldSuspended, Paced, Encodable, TransferTrace, InOrder;
    if s.isSuspended || s.isFrozen || !c.answers(w.clock) {
    } else if IsSendComplete(s.transaction) {
      EofGood(c, s, Tick(w));
    } else {
      FileDataGood(c, s, Tick(w));
      var a := TransmitFileData(c, s, Tick(w));
      if a.ok { LoopGood(c, a.s, a.w); }
    }
  }

  lemma TraceInOrder(sent: seq<Pdu>)
    requires InOrder(sent)
    ensures TransferTrace(sent)
  {}

  lemma FileDataGood(c: Config, s: Sender, w: World)
    requires s.state == SendFile && SenderGood(s, w.log) && !s.isSuspended && !IsSendComplete(s.transaction)
    ensures var a := TransmitFileData(c, s, w);
      if a.ok then SenderGood(a.s, a.w.log) && a.s.state == SendFile else SenderGood(Close(a.s), a.w.log)
  {
    hide SentSince, TerminalsSince, ToldSuspended, Paced, Encodable, TransferTrace, InOrder, Transmit;
    var t, n := s.transaction, SegmentLength(s.transaction);
    var file := SourceFile(c, w.files, t.sourceName);
    Emitted(Tick(w), Error(FilestoreError));
    if (t.sourceName == LISTING_NAME || c.answers(w.clock)) && t.filePosition + n <= |file| {
      var p := Pdu(HeaderOf(t), FileData(t.filePosition, CStrings.Copied(file[t.filePosition..t.filePosition + n])));
      Transmitted(c, s.(transaction := t.(filePosition := t.filePosition + n)), Tick(w), p);
      AppendInOrder(SentSince(w.log), p);
      TraceInOrder(SentSince(w.log) + [p]);
      FirstStays(SentSince(w.log), p);
    }
  }

  lemma FirstStays(sent: seq<Pdu>, p: Pdu)
    requires InOrder(sent)
    ensures |sent| > 0 && (sent + [p])[0] == sent[0] && (sent + [p])[|sent + [p]| - 1] == p
  {}

  /** The EOF after the last segment, and the end of the transaction. */
  lemma EofGood(c: Config, s: Sender, w: World)
    requires s.state == SendFile && SenderGood(s, w.log) && !s.isSuspended && IsSendComplete(s.transaction)
    ensures var a := TransmitEof(c, s, w);
      if a.ok then SenderGood(Close(a.s), Tell(s, Tell(s, a.w, EofSent), TransactionFinished).log) else SenderGood(Close(a.s), a.w.log)
  {
    hide SentSince, TerminalsSince, ToldSuspended, Paced, Encodable, TransferTrace, InOrder, Transmit;
    var t := s.(transaction := Sized(c, s.transaction, w));
    Transmitted(c, t, Tick(w), EofOf(c, s, w));
    FinalEof(SentSince(w.log), EofOf(c, s, w));
    var a := TransmitEof(c, s, w);
    Telling(s, a.w, EofSent);
    Telling(s, Tell(s, a.w, EofSent), TransactionFinished);
  }

  lemma CancelledGood(c: Config, s: Sender, w: World)
    requires s.state == SendFile && !s.condition.NoError? && SenderGood(s.(condition := NoError), w.log)
    ensures var (s', w') := SenderCancelled(c, s, w); SenderGood(s', w'.log)
  {
    hide SentSince, TerminalsSince, ToldSuspended, Paced, Encodable, TransferTrace, InOrder, Transmit;
    var t := s.(transaction := Sized(c, s.transaction, w));
    Transmitted(c, t, Tick(w), EofOf(c, s, w));
    FinalEof(SentSince(w.log), EofOf(c, s, w));
    var a := TransmitEof(c, s, w);
    Telling(s, a.w, TransactionFinished);
  }

  // ---------- events and calls ----------

  lemma MetadataAlone(p: Pdu)
    requires p.payload.Metadata?
    ensures InOrder([p]) && TransferTrace([p]) && EndOffset([p][0].payload) == 0
  {}

  lemma PutGood(c: Config, s: Sender, w: World)
    requires s.state == SendMetadata && s.condition.NoError? && !s.isSuspended && s.transaction.filePosition == 0
    requires Told(s, w.log) && SentSince(w.log) == [] && TerminalsSince(w.log, TheSender) == 0
    ensures var (s', w') := SenderPut(c, s, w); SenderGood(s', w'.log)
  {
    hide SentSince, TerminalsSince, ToldSuspended, Paced, Transmit, InOrder, TransferTrace, SendLoop, HeaderOf, TransmitEof;
    var w1 := Tell(s, w, TransactionStarted);
    var p := MetadataOf(c, s.transaction, w1);
    Telling(s, w, TransactionStarted);
    Transmitted(c, s.(transaction := Sized(c, s.transaction, w1)), w1, p);
    var a := TransmitMetadata(c, s, w1);
    MetadataAlone(p);
    if a.ok {
      assert SentSince(a.w.log) == [p];
      if IsFileTransfer(a.s.transaction) {
        LoopGood(c, a.s.(state := SendFile), a.w);
      } else {
        NoFileGood(c, a.s, a.w, p);
      }
    } else {
      NothingSentGood(Close(a.s), a.w.log);
    }
  }

  lemma NothingSentGood(s: Sender, log: seq<Effect>)
    requires s.state == Completed && Told(s, log) && SentSince(log) == [] && TerminalsSince(log, TheSender) == 0
    ensures SenderGood(s, log)
  {}

  /** Without a file the EOF follows the Metadata at once. */
  lemma NoFileGood(c: Config, s: Sender, w: World, p: Pdu)
    requires Told(s, w.log) && SentSince(w.log) == [p] && TerminalsSince(w.log, TheSender) == 0
    requires p.payload.Metadata? && !AnnouncesFile(p.payload) && !s.isSuspended
    ensures var b := TransmitEof(c, s, w);
      if b.ok then SenderGood(Close(b.s), Tell(s, Tell(s, b.w, EofSent), TransactionFinished).log) else SenderGood(Close(b.s), b.w.log)
  {
    hide SentSince, TerminalsSince, ToldSuspended, Paced, Transmit, InOrder, TransferTrace;
    MetadataAlone(p);
    Transmitted(c, s.(transaction := Sized(c, s.transaction, w)), Tick(w), EofOf(c, s, w));
    FinalEof([p], EofOf(c, s, w));
    var b := TransmitEof(c, s, w);
    Telling(s, b.w, EofSent);
    Telling(s, Tell(s, b.w, EofSent), TransactionFinished);
  }

  lemma SuspensionGood(c: Config, s: Sender, w: World)
    requires s.state == SendFile && SenderGood(s, w.log)
    ensures var (s', w') := SenderSuspended(s, w); SenderGood(s', w'.log)
    ensures var (s', w') := SenderResumed(c, s, w); SenderGood(s', w'.log)
  {
    hide SentSince, TerminalsSince, ToldSuspended, Paced, TransferTrace, InOrder, SendLoop;
    Emitted(w, Indicated(TheSender, Suspended, s.id));
    Emitted(w, Indicated(TheSender, Resumed, s.id));
    if s.isSuspended { LoopGood(c, s.(isSuspended := false), Tell(s, w, Resumed)); } else { LoopGood(c, s, w); }
  }

  /** Every event keeps the sender's invariant. A notice of cancellation only ever comes from a cancel
      request, which has set the condition. */
  lemma SenderStepGood(c: Config, s: Sender, w: World, e: Event, t: Transaction)
    requires SenderGood(s, w.log) && !e.E3NoticeOfCancellation?
    ensures var (s', w') := SenderStep(c, s, w, e, t); SenderGood(s', w'.log)
  {
    hide SentSince, TerminalsSince, ToldSuspended, Paced, TransferTrace, InOrder, SendLoop, SenderSuspended, SenderResumed, SenderCancelled;
    if s.state == SendFile {
      ForeignEmitted(w, Error(UnsupportedAction));
      Telling(s, w, Abandoned); Telling(s, w, Report);
      SuspensionGood(c, s, w);
      LoopGood(c, s, w);
      if s.isFrozen { LoopGood(c, s.(isFrozen := false), w); }
      if e.E33ReceivedCancelRequest? { CancelledGood(c, s.(condition := CancelRequestReceived), w); }
    }
  }

  // ---------- the sender's share in a call ----------

  /** What a step of the entity does to the sender: nothing, or one event, met in a world in which only
      the receiver has acted since. */
  datatype Share = Untouched | Touched(e: Event, w: World)

  ghost predicate Shares(c: Config, k: Core, k': Core, share: Share) {
    match share
    case Untouched => k'.sender == k.sender && SameSenderLog(k.w.log, k'.w.log)
    case Touched(e, w) =>
      var (s, w') := SenderStep(c, k.sender, w, e, k.sender.transaction);
      && SameSenderLog(k.w.log, w.log) && w.files == k.w.files && !e.E3NoticeOfCancellation?
      && k'.sender == s && SameSenderLog(w'.log, k'.w.log)
  }

  /** The receiver acts first: its entries change nothing for the sender. */
  lemma ActsFirst(c: Config, k: Core, k1: Core, k2: Core, share: Share)
    requires k1.sender == k.sender && SameSenderLog(k.w.log, k1.w.log) && k1.w.files == k.w.files && Shares(c, k1, k2, share)
    ensures Shares(c, k, k2, share)
  {
    hide SentSince, TerminalsSince, ToldSuspended, Paced, ProgressIn, SenderStep;
  }

  lemma ActsLast(c: Config, k: Core, k1: Core, k2: Core, share: Share)
    requires k2.sender == k1.sender && SameSenderLog(k1.w.log, k2.w.log) && Shares(c, k, k1, share)
    ensures Shares(c, k, k2, share)
  {
    hide SentSince, TerminalsSince, ToldSuspended, Paced, ProgressIn, SenderStep;
  }

  lemma Quiet(k: Core, e: Effect)
    requires Foreign(e)
    ensures SameSenderLog(k.w.log, Emit(k.w, e).log)
    ensures SameSenderLog(k.w.log, Emit(Tick(k.w), e).log)
  {
    ForeignEmitted(k.w, e); ForeignEmitted(Tick(k.w), e);
  }

  lemma {:induction false} IssueShare(c: Config, k: Core, id: TransactionId, e: Event) returns (share: Share)
    requires Accompanied(e, None) && (e.E3NoticeOfCancellation? ==> id != k.sender.id)
    ensures Shares(c, k, IssueRequest(c, k, id, e), share)
    ensures share.Touched? ==> (share.e == e && id == k.sender.id) || (share.e.E33ReceivedCancelRequest? && k.receiver.id == k.sender.id)
    decreases Rank(e), 1
  {
    hide SentSince, TerminalsSince, ToldSuspended, Paced, ProgressIn, SenderStep, ReceiverStep;
    if id == k.sender.id {
      share := Touched(e, k.w);
    } else if id == k.receiver.id {
      share := ReceiverShare(c, k, e, k.receiver.transaction, None);
    } else {
      share := Untouched;
    }
  }

  lemma {:induction false} FaultShare(c: Config, k: Core, condition: ConditionCode) returns (share: Share)
    ensures Shares(c, k, RunFaultHandler(c, k, k.receiver.id, DefaultAction(condition)), share)
    ensures share.Touched? ==> share.e.E33ReceivedCancelRequest? && k.receiver.id == k.sender.id
    decreases 2, 2
  {
    hide Shares, IssueRequest;
    if condition.NoError? {
      share := Untouched;
      assert Shares(c, k, k, Untouched) by { Itself(c, k); }
    } else {
      share := IssueShare(c, k, k.receiver.id, E33ReceivedCancelRequest);
    }
  }

  lemma Itself(c: Config, k: Core)
    ensures Shares(c, k, k, Untouched)
  {}

  lemma DeleteQuiet(c: Config, k: Core)
    ensures DeleteStoredFile(c, k).sender == k.sender && SameSenderLog(k.w.log, DeleteStoredFile(c, k).w.log)
  {
    hide SentSince, TerminalsSince, ToldSuspended, Paced, ProgressIn;
    Quiet(k, Error(FilestoreError));
  }

  lemma StoreQuiet(c: Config, k: Core, offset: nat, data: seq<bv8>)
    ensures StoreSegment(c, k, offset, data).sender == k.sender && SameSenderLog(k.w.log, StoreSegment(c, k, offset, data).w.log)
  {
    hide SentSince, TerminalsSince, ToldSuspended, Paced, ProgressIn, WriteAt;
    Quiet(k, Error(FilestoreError)); Quiet(k, Stored(k.receiver.transaction.destinationName, offset, data));
  }

  lemma NotifyQuiet(k: Core, i: Indication)
    ensures Notify(k, i).sender == k.sender && SameSenderLog(k.w.log, Notify(k, i).w.log)
  {
    Quiet(k, Indicated(TheReceiver, i, k.receiver.id));
  }

  lemma {:induction false} ReceiveEofShare(c: Config, k: Core, checksum: nat, fileSize: nat) returns (share: Share)
    ensures Shares(c, k, ReceiveEof(c, k, checksum, fileSize), share)
    ensures share.Touched? ==> share.e.E33ReceivedCancelRequest? && k.receiver.id == k.sender.id
    decreases 2, 4
  {
    hide Shares, SameSenderLog, ChecksumOf, RunFaultHandler, DefaultAction, DeleteStoredFile;
    var k1, k' := Notify(k, EofReceived), ReceiveEof(c, k, checksum, fileSize);
    var k2 := k1.(w := Tick(k1.w));
    NotifyQuiet(k, EofReceived); NotifyQuiet(k1, TransactionFinished); NotifyQuiet(k2, TransactionFinished);
    if IsFileTransfer(k.receiver.transaction) && k.receiver.receivedFileSize > fileSize {
      share := FaultShare(c, k1, FileSizeError);
      ActsFirst(c, k, k1, k', share);
    } else if IsFileTransfer(k.receiver.transaction) && ChecksumOf(c, k.receiver.transaction.destinationName, k1.w) != checksum {
      var k3 := RunFaultHandler(c, k2, k.receiver.id, DefaultAction(FileChecksumFailure));
      share := FaultShare(c, k2, FileChecksumFailure);
      DeleteQuiet(c, k3);
      SameItself(k1.w.log);
      ActsFirst(c, k1, k2, k3, share); ActsFirst(c, k, k1, k3, share); ActsLast(c, k, k3, k', share);
    } else {
      share := Untouched;
      Itself(c, k1);
      ActsFirst(c, k, k1, k1, share);
      SameItself(k1.w.log);
      ActsLast(c, k, k1, k', share);
    }
  }

  lemma SameItself(log: seq<Effect>)
    ensures SameSenderLog(log, log)
  {}

  /** Events the receiver handles without a nested request. */
  lemma PlainEventQuiet(c: Config, k: Core, e: Event, t: Transaction, p: Option<Payload>)
    requires Accompanied(e, p) && !e.E27InactivityTimeout? && !e.E33ReceivedCancelRequest?
    requires e.E12ReceivedEofNoError? ==> k.receiver.state != WaitForEof
    ensures var k' := ReceiverStep(c, k, e, t, p); k'.sender == k.sender && SameSenderLog(k.w.log, k'.w.log)
  {
    hide SameSenderLog, ReceiveEof, StoreSegment, IssueRequest, RunFaultHandler, DefaultAction, Notify, FinishReceiver, Fail, InitReceiver;
    SameItself(k.w.log);
    FinishQuiet(k); FailQuiet(k, t);
    NotifyQuiet(k, Abandoned); NotifyQuiet(k, Report); NotifyQuiet(k, MetadataReceived); NotifyQuiet(k, FileSegmentReceived);
    if e.E13ReceivedEofCancel? {
      FinishQuiet(WithCondition(k, p.value.condition));
    } else if e.E11ReceivedFileData? {
      SegmentQuiet(c, k, p.value.offset, p.value.data);
    }
  }

  lemma FinishQuiet(k: Core)
    ensures var k' := FinishReceiver(k); k'.sender == k.sender && SameSenderLog(k.w.log, k'.w.log)
  {
    hide SameSenderLog, Notify;
    NotifyQuiet(k, TransactionFinished);
  }

  lemma FailQuiet(k: Core, t: Transaction)
    ensures var k' := Fail(k, UnsupportedAction); k'.sender == k.sender && SameSenderLog(k.w.log, k'.w.log)
    ensures var k' := InitReceiver(k, t); k'.sender == k.sender && SameSenderLog(k.w.log, k'.w.log)
  {
    hide SameSenderLog;
    Quiet(k, Error(UnsupportedAction)); Quiet(k, Started(TheReceiver, IdOf(t.source, t.seqNumber)));
  }

  lemma SegmentQuiet(c: Config, k: Core, offset: nat, data: seq<bv8>)
    ensures var k' := StoreSegment(c, Notify(k, FileSegmentReceived), offset, data);
      k'.sender == k.sender && SameSenderLog(k.w.log, k'.w.log)
  {
    hide SameSenderLog, StoreSegment;
    NotifyQuiet(k, FileSegmentReceived);
    StoreQuiet(c, Notify(k, FileSegmentReceived), offset, data);
    SameTwice(k.w.log, Notify(k, FileSegmentReceived).w.log, StoreSegment(c, Notify(k, FileSegmentReceived), offset, data).w.log);
  }

  lemma SameTwice(a: seq<Effect>, b: seq<Effect>, d: seq<Effect>)
    requires SameSenderLog(a, b) && SameSenderLog(b, d)
    ensures SameSenderLog(a, d)
  {
    hide SentSince, TerminalsSince, ToldSuspended, Paced, ProgressIn;
  }

  /** The receiver touches the sender only through the fault handler, and only when both machines have
      the same transaction id. */
  lemma {:induction false} ReceiverShare(c: Config, k: Core, e: Event, t: Transaction, p: Option<Payload>) returns (share: Share)
    requires Accompanied(e, p) && (e.E33ReceivedCancelRequest? ==> k.receiver.id != k.sender.id)
    ensures Shares(c, k, ReceiverStep(c, k, e, t, p), share)
    ensures share.Touched? ==> share.e.E33ReceivedCancelRequest? && k.receiver.id == k.sender.id
    decreases Rank(e), 0
  {
    hide SameSenderLog, SenderStep, ReceiveEof, StoreSegment, IssueRequest, RunFaultHandler, DefaultAction;
    var r := k.receiver;
    share := Untouched;
    SameItself(k.w.log);
    if r.state != WaitForMd && r.state != WaitForEof {
    } else if e.E27InactivityTimeout? {
      share := FaultShare(c, k, InactivityDetected);
    } else if e.E33ReceivedCancelRequest? {
      var k1 := WithCondition(k, CancelRequestReceived);
      share := IssueShare(c, k1, r.id, E3NoticeOfCancellation);
      ActsFirst(c, k, k1, ReceiverStep(c, k, e, t, p), share);
    } else if e.E12ReceivedEofNoError? && r.state == WaitForEof {
      share := ReceiveEofShare(c, k, p.value.checksum, p.value.fileSize);
    } else {
      PlainEventQuiet(c, k, e, t, p);
    }
  }

  lemma DeliverShare(c: Config, k: Core, p: Payload) returns (share: Share)
    ensures Shares(c, k, DeliverToReceiver(c, k, p), share)
    ensures share.Touched? ==> share.e.E33ReceivedCancelRequest? && k.receiver.id == k.sender.id
  {
    hide Shares, SameSenderLog, ReceiverStep;
    Quiet(k, Error(UnsupportedAction)); SameItself(k.w.log);
    share := ReceiverShare(c, Announced(k, p), EventOf(p), k.receiver.transaction, Some(p));
    ActsFirst(c, k, Announced(k, p), DeliverToReceiver(c, k, p), share);
  }

  lemma NewReceiverShare(c: Config, k: Core, p: Pdu) returns (share: Share)
    ensures Shares(c, k, NewReceiver(c, k, p), share)
    ensures share.Touched? ==> share.e.E33ReceivedCancelRequest?
  {
    hide SentSince, TerminalsSince, ToldSuspended, Paced, ProgressIn, SenderStep, DeliverToReceiver, TransactionOf;
    share := Untouched;
    if p.header.direction.TowardSender? || p.payload.Finished? || p.payload.Ack? {
      Quiet(k, Error(UnsupportedAction));
    } else {
      var t := TransactionOf(p);
      var k1 := k.(receiver := k.receiver.(state := WaitForMd));
      var k2 := ReceiverStep(c, k1, E0EnteredState, t, None);
      Quiet(k1, Started(TheReceiver, IdOf(t.source, t.seqNumber)));
      share := DeliverShare(c, k2, p.payload);
      ActsFirst(c, k, k2, NewReceiver(c, k, p), share);
    }
  }

  lemma ReceivePduShare(c: Config, k: Core, pdu: Option<Pdu>) returns (share: Share)
    ensures Shares(c, k, ReceivePdu(c, k, pdu), share)
    ensures share.Touched? ==> share.e.E33ReceivedCancelRequest? || (pdu.Some? && share.e == EventOf(pdu.value.payload))
  {
    hide SentSince, TerminalsSince, ToldSuspended, Paced, ProgressIn, SenderStep, DeliverToReceiver, NewReceiver, PduId;
    share := Untouched;
    Quiet(k, Error(UnsupportedAction)); Quiet(k, Error(Asn1sccError));
    if pdu.None? || pdu.value.header.mode.Acknowledged? {
    } else if PduId(pdu.value) == k.sender.id && !k.sender.state.Completed? {
      share := Touched(EventOf(pdu.value.payload), Announced(k, pdu.value.payload).w);
    } else if PduId(pdu.value) == k.receiver.id && !k.receiver.state.Completed? {
      share := DeliverShare(c, k, pdu.value.payload);
    } else {
      share := NewReceiverShare(c, k, pdu.value);
    }
  }

  /** Every call other than a put reaches the sender as at most one event, and a notice of cancellation
      never comes alone. */
  lemma CallShare(c: Config, k: Core, call: Call) returns (share: Share)
    requires !call.CallPut?
    ensures Shares(c, k, Step(c, k, call), share)
    ensures share.Touched? && share.e.E1SendFileData? ==> call.CallTransportReady?
    ensures share.Touched? && share.e.E32ReceivedResumeRequest? ==> call.CallResume? && call.id == k.sender.id
    ensures share.Touched? && share.e.E41ReceivedThaw? ==> call.CallThaw? && call.destination == k.sender.transaction.destination
  {
    hide SentSince, TerminalsSince, ToldSuspended, Paced, ProgressIn, SenderStep, IssueRequest, ReceivePdu;
    match call
    case CallCancel(id) => share := IssueShare(c, k, id, E33ReceivedCancelRequest);
    case CallSuspend(id) => share := IssueShare(c, k, id, E31ReceivedSuspendRequest);
    case CallResume(id) => share := IssueShare(c, k, id, E32ReceivedResumeRequest);
    case CallReport(id) => share := IssueShare(c, k, id, E34ReceivedReportRequest);
    case CallFreeze(destination) =>
      share := if k.sender.transaction.destination == destination then Touched(E40ReceivedFreeze, k.w) else Untouched;
    case CallThaw(destination) =>
      share := if k.sender.transaction.destination == destination then Touched(E41ReceivedThaw, k.w) else Untouched;
    case CallTransportReady => share := IssueShare(c, k, k.sender.id, E1SendFileData);
    case CallReceived(pdu) => share := ReceivePduShare(c, k, pdu);
    case CallTimerExpired => share := IssueShare(c, k, k.receiver.id, E27InactivityTimeout);
  }

  // ---------- runs ----------

  lemma SameLogGood(s: Sender, a: seq<Effect>, b: seq<Effect>)
    requires SenderGood(s, a) && SameSenderLog(a, b)
    ensures SenderGood(s, b)
  {
    hide SentSince, TerminalsSince, ToldSuspended, Paced, ProgressIn, TransferTrace, InOrder;
  }

  lemma PutCallGood(c: Config, k: Core, destination: nat, sourceName: Name, destinationName: Name)
    requires SenderGood(k.sender, k.w.log)
    ensures var k' := Put(c, k, destination, sourceName, destinationName); SenderGood(k'.sender, k'.w.log)
  {
    hide SentSince, TerminalsSince, ToldSuspended, Paced, ProgressIn, TransferTrace, SenderPut, ClippedName;
    var seqNumber := (k.seqNumber + 1) % UINT32;
    var t := Transaction(c.entityId, seqNumber, destination, ClippedName(sourceName), ClippedName(destinationName), 0, 0);
    Emitted(k.w, Started(TheSender, IdOf(t.source, t.seqNumber)));
    PutGood(c, InitSender(k.sender, t), Emit(k.w, Started(TheSender, IdOf(t.source, t.seqNumber))));
  }

  /** Every public call keeps the sender's invariant. */
  lemma StepGood(c: Config, k: Core, call: Call)
    requires SenderGood(k.sender, k.w.log)
    ensures var k' := Step(c, k, call); SenderGood(k'.sender, k'.w.log)
  {
    hide SenderGood, SameSenderLog, SenderStep, IssueRequest, ReceivePdu, Put;
    if call.CallPut? {
      PutCallGood(c, k, call.destination, call.sourceName, call.destinationName);
    } else {
      var k' := Step(c, k, call);
      var share := CallShare(c, k, call);
      match share
      case Untouched => SameLogGood(k.sender, k.w.log, k'.w.log);
      case Touched(e, w) =>
        SameLogGood(k.sender, k.w.log, w.log);
        SenderStepGood(c, k.sender, w, e, k.sender.transaction);
        SameLogGood(k'.sender, SenderStep(c, k.sender, w, e, k.sender.transaction).1.log, k'.w.log);
    }
  }

  lemma {:induction false} RunGood(c: Config, k: Core, calls: seq<Call>)
    requires Initial(k)
    ensures var k' := Run(c, k, calls); SenderGood(k'.sender, k'.w.log)
  {
    hide Step;
    if calls != [] {
      RunGood(c, k, calls[..|calls| - 1]);
      StepGood(c, Run(c, k, calls[..|calls| - 1]), calls[|calls| - 1]);
    }
  }

  /** In every run: between calls the sender is sending or done; what it sent in its current transaction
      is a prefix of Metadata, contiguous FileData, one EOF, complete if the EOF says so; it gave at most
      one terminal indication; its suspended and resumed indications alternate with no progress between. */
  lemma SenderRun(c: Config, k: Core, calls: seq<Call>)
    requires Initial(k)
    ensures var k' := Run(c, k, calls);
      && (k'.sender.state == SendFile || k'.sender.state == Completed)
      && TransferTrace(SentSince(k'.w.log))
      && TerminalsSince(k'.w.log, TheSender) <= 1
      && Paced(k'.w.log)
      && (k'.sender.state == SendFile ==> Sending(k'.sender, k'.w.log))
  {
    hide Run, TransferTrace, Sending, Paced, ToldSuspended, SentSince, TerminalsSince;
    RunGood(c, k, calls);
  }

  /** A completed sender stays as it is and sends nothing until the next put. */
  lemma CompletedIsSilent(c: Config, k: Core, call: Call)
    requires k.sender.state == Completed && !call.CallPut?
    ensures var k' := Step(c, k, call); k'.sender == k.sender && SameSenderLog(k.w.log, k'.w.log)
  {
    hide SentSince, TerminalsSince, ToldSuspended, Paced, ProgressIn, Step;
    var _ := CallShare(c, k, call);
  }

  lemma {:induction false} CompletedRun(c: Config, k: Core, calls: seq<Call>)
    requires k.sender.state == Completed && forall i | 0 <= i < |calls| :: !calls[i].CallPut?
    ensures var k' := Run(c, k, calls); k'.sender == k.sender && SentSince(k'.w.log) == SentSince(k.w.log)
  {
    hide SentSince, TerminalsSince, ToldSuspended, Paced, ProgressIn, Step;
    if calls != [] {
      CompletedRun(c, k, calls[..|calls| - 1]);
      CompletedIsSilent(c, Run(c, k, calls[..|calls| - 1]), calls[|calls| - 1]);
    }
  }

  /** ceil(n / SEGMENT) */
  function SegmentCount(n: nat): nat { (n + SEGMENT - 1) / SEGMENT }

  lemma {:induction false} SegmentOffsets(sent: seq<Pdu>, i: nat)
    requires InOrder(sent) && 1 <= i < |sent|
    ensures sent[i].payload.FileData? && sent[i].payload.offset == SEGMENT * (i - 1)
  {
    assert Follows(sent[0].payload.size, sent[i - 1].payload, sent[i].payload);
    if i > 1 {
      SegmentOffsets(sent, i - 1);
      assert Follows(sent[0].payload.size, sent[i - 2].payload, sent[i - 1].payload);
    }
  }

  /** However often a transfer was interrupted: once an EOF reports no error, ceil(size / 4096) FileData
      PDUs have been sent. */
  lemma CompleteCount(sent: seq<Pdu>)
    requires TransferTrace(sent) && |sent| > 0 && AnnouncesFile(sent[0].payload) && IsComplete(sent[|sent| - 1])
    ensures |sent| - 2 == SegmentCount(sent[0].payload.size)
  {
    if |sent| > 2 {
      var n := |sent| - 2;
      SegmentOffsets(sent[..|sent| - 1], n);
      assert Follows(sent[0].payload.size, sent[..|sent| - 1][n - 1].payload, sent[..|sent| - 1][n].payload);
    }
  }

  // ---------- pauses ----------

  predicate IsPaused(s: Sender) { s.isSuspended || s.isFrozen }

  /** A resume ends a pause unless the sender is frozen as well; a thaw, unless it is suspended. */
  predicate EndsPause(s: Sender, e: Event) {
    (e.E32ReceivedResumeRequest? && !s.isFrozen) || (e.E41ReceivedThaw? && !s.isSuspended)
  }

  lemma CancelMakesNoProgress(c: Config, s: Sender, w: World)
    requires !s.condition.NoError?
    ensures var (s', w') := SenderCancelled(c, s, w);
      ProgressIn(w'.log) == ProgressIn(w.log) && s'.transaction.filePosition == s.transaction.filePosition
  {
    hide ProgressIn, Encodable, SentSince, TerminalsSince, ToldSuspended, Paced;
    var p := EofOf(c, s, w);
    Emitted(Tick(w), Error(Asn1sccError)); Emitted(Tick(Tick(w)), Error(TransportError)); Emitted(Tick(Tick(w)), Sent(p));
    Emitted(TransmitEof(c, s, w).w, Indicated(TheSender, TransactionFinished, s.id));
  }

  /** Unless the event ends the pause, a paused sender makes no progress and keeps its position. */
  lemma PausedEvent(c: Config, s: Sender, w: World, e: Event, t: Transaction)
    requires s.state != SendMetadata && IsPaused(s) && !EndsPause(s, e) && !e.E3NoticeOfCancellation?
    ensures var (s', w') := SenderStep(c, s, w, e, t);
      ProgressIn(w'.log) == ProgressIn(w.log) && s'.transaction.filePosition == s.transaction.filePosition
      && (s'.state == Completed || IsPaused(s'))
  {
    hide ProgressIn, SentSince, TerminalsSince, ToldSuspended, Paced, SendLoop, SenderCancelled;
    LoopsArePaused(c, s, w);
    CancelMakesNoProgress(c, s.(condition := CancelRequestReceived), w);
    Cancelled(c, s.(condition := CancelRequestReceived), w);
    Emitted(w, Indicated(TheSender, Abandoned, s.id)); Emitted(w, Indicated(TheSender, Suspended, s.id));
    Emitted(w, Indicated(TheSender, Resumed, s.id)); Emitted(w, Indicated(TheSender, Report, s.id));
    Emitted(w, Error(UnsupportedAction));
  }

  lemma Cancelled(c: Config, s: Sender, w: World)
    ensures SenderCancelled(c, s, w).0.state == Completed
  {}

  lemma LoopsArePaused(c: Config, s: Sender, w: World)
    requires IsPaused(s)
    ensures s.state == SendFile ==> SendLoop(c, s, w) == (s, w)
    ensures s.state == SendFile && s.isFrozen ==>
      var s1, w1 := s.(isSuspended := false), Tell(s, w, Resumed); SendLoop(c, s1, w1) == (s1, w1)
    ensures s.state == SendFile && s.isSuspended ==>
      var s1 := s.(isFrozen := false); SendLoop(c, s1, w) == (s1, w)
  {}

  /** The call does not end the sender's pause. */
  predicate KeepsPause(s: Sender, call: Call) {
    && !call.CallPut?
    && (call.CallResume? && call.id == s.id ==> s.isFrozen)
    && (call.CallThaw? && call.destination == s.transaction.destination ==> s.isSuspended)
  }

  /** While a transaction is suspended or frozen, no call other than a put, a resume of an unfrozen
      transaction or a thaw of an unsuspended one sends FileData or an EOF that reports no error, and the
      file position stays where it is. */
  lemma PausedStep(c: Config, k: Core, call: Call)
    requires k.sender.state != SendMetadata && IsPaused(k.sender) && KeepsPause(k.sender, call)
    ensures var k' := Step(c, k, call);
      && ProgressIn(k'.w.log) == ProgressIn(k.w.log)
      && k'.sender.transaction.filePosition == k.sender.transaction.filePosition
      && (k'.sender.state == Completed || IsPaused(k'.sender))
  {
    hide SentSince, TerminalsSince, ToldSuspended, Paced, ProgressIn, Step, SenderStep;
    var share := CallShare(c, k, call);
    if share.Touched? {
      PausedEvent(c, k.sender, share.w, share.e, k.sender.transaction);
    }
  }

  /** Until the sender completes, no call of the run ends the pause that it is in; and there is no put. */
  predicate StaysPaused(c: Config, k: Core, calls: seq<Call>) {
    calls == [] ||
    (var before, call := calls[..|calls| - 1], calls[|calls| - 1];
     && StaysPaused(c, k, before) && !call.CallPut?
     && (Run(c, k, before).sender.state == Completed || KeepsPause(Run(c, k, before).sender, call)))
  }

  /** However long a pause lasts, whatever else is called meanwhile: no progress, and the position stays. */
  lemma {:induction false} PausedRun(c: Config, k: Core, calls: seq<Call>)
    requires k.sender.state != SendMetadata && IsPaused(k.sender) && StaysPaused(c, k, calls)
    ensures var k' := Run(c, k, calls);
      && ProgressIn(k'.w.log) == ProgressIn(k.w.log)
      && k'.sender.transaction.filePosition == k.sender.transaction.filePosition
      && (k'.sender.state == Completed || (k'.sender.state != SendMetadata && IsPaused(k'.sender)))
  {
    hide SentSince, TerminalsSince, ToldSuspended, Paced, ProgressIn, Step, SenderStep;
    if calls != [] {
      var k1, call := Run(c, k, calls[..|calls| - 1]), calls[|calls| - 1];
      PausedRun(c, k, calls[..|calls| - 1]);
      if k1.sender.state == Completed { CompletedIsSilent(c, k1, call); } else { PausedStep(c, k1, call); }
      NeverSendingMetadata(c, k1, call);
    }
  }

  /** SEND_METADATA is left before a call ends. */
  lemma NeverSendingMetadata(c: Config, k: Core, call: Call)
    requires k.sender.state != SendMetadata && !call.CallPut?
    ensures Step(c, k, call).sender.state != SendMetadata
  {
    hide SentSince, TerminalsSince, ToldSuspended, Paced, ProgressIn, Step, SendLoop;
    var share := CallShare(c, k, call);
    if share.Touched? && k.sender.state == SendFile {
      LoopStates(c, k.sender, share.w);
      LoopStates(c, k.sender.(isFrozen := false), share.w);
      LoopStates(c, k.sender.(isSuspended := false), Tell(k.sender, share.w, Resumed));
    }
  }

  lemma {:induction false} LoopStates(c: Config, s: Sender, w: World)
    requires s.state == SendFile
    ensures SendLoop(c, s, w).0.state == SendFile || SendLoop(c, s, w).0.state == Completed
    decreases if IsSendComplete(s.transaction) then 0 else s.transaction.fileSize - s.transaction.filePosition
  {
    if !IsPaused(s) && c.answers(w.clock) && !IsSendComplete(s.transaction) {
      var a := TransmitFileData(c, s, Tick(w));
      if a.ok { LoopStates(c, a.s, a.w); }
    }
  }
}

/** What each public call achieves, in full: the new state and the entries in the log. */
module CallEffects {
  import opened CStrings
  import opened Identifiers
  import opened Integers
  import opened Pdus
  import opened Protocol
  import opened SenderRuns
  import opened ReceiverRuns
  import opened SentFiles
  import opened FileTransfers
  import opened InterleavedTransfers

  /** The entity after it has made entries in the log. */
  function Logged(k: Core, effects: seq<Effect>): Core { k.(w := k.w.(log := k.w.log + effects)) }

  /** The sender is on its way through a file. */
  predicate IsSending(k: Core) { k.sender.state == SendFile }

  /** Nobody is busy with the transaction: the id is that of no machine, or of one that is done; the
      sender's is looked at first. */
  predicate IsNobodys(k: Core, id: TransactionId) {
    if id == k.sender.id then k.sender.state == Completed else id == k.receiver.id ==> k.receiver.state == Completed
  }

  /** The receiver is busy with the transaction, which is not the sender's. */
  predicate IsReceivers(k: Core, id: TransactionId) {
    id == k.receiver.id && id != k.sender.id && IsWaiting(k.receiver)
  }

  // ---------- suspending ----------

  /** A suspend request suspends a sender and tells it, once. */
  lemma SuspendCall(c: Config, k: Core)
    requires IsSending(k)
    ensures Step(c, k, CallSuspend(k.sender.id))
         == if k.sender.isSuspended then k
            else Logged(k.(sender := k.sender.(isSuspended := true)), [Indicated(TheSender, Suspended, k.sender.id)])
  {}

  /** From then on there is no FileData and no EOF without error, until a call that ends the pause. */
  lemma SuspendedRun(c: Config, k: Core, calls: seq<Call>)
    requires IsSending(k) && StaysPaused(c, Step(c, k, CallSuspend(k.sender.id)), calls)
    ensures var k' := Run(c, Step(c, k, CallSuspend(k.sender.id)), calls);
      && ProgressIn(k'.w.log) == ProgressIn(k.w.log)
      && k'.sender.transaction.filePosition == k.sender.transaction.filePosition
      && (k'.sender.state == Completed || k'.sender.isSuspended || k'.sender.isFrozen)
  {
    hide StaysPaused, ProgressIn, Step, Run;
    var k1 := Step(c, k, CallSuspend(k.sender.id));
    SuspendCall(c, k);
    SenderRuns.Emitted(k.w, Indicated(TheSender, Suspended, k.sender.id));
    PausedRun(c, k1, calls);
  }

  /** A freeze goes by the destination, tells nobody, and pauses the sender. */
  lemma FreezeCall(c: Config, k: Core, destination: nat)
    requires k.sender.state != SendMetadata
    ensures Step(c, k, CallFreeze(destination))
         == if IsSending(k) && k.sender.transaction.destination == destination then k.(sender := k.sender.(isFrozen := true)) else k
  {}

  // ---------- going on ----------

  /** The sender stands before segment i of its file and meets no resistance from now on. */
  ghost predicate Unhindered(c: Config, k: Core, file: seq<bv8>, i: nat) {
    && IsSending(k) && Willing(c, k.w.clock) && ValidIds(HeaderOf(k.sender.transaction))
    && Sends(c, k.sender.transaction, file, k.w) && i <= SegmentCount(|file|)
    && k.sender.transaction.fileSize == |file| && k.sender.transaction.filePosition == SegmentTo(|file|, i)
  }

  /** The sender sends the rest: the segments from the i-th on, one EOF with the condition of the sender and
      the file's checksum and size; it tells that, finishes, and is done. */
  ghost predicate SendsRest(c: Config, k: Core, k': Core, file: seq<bv8>, i: nat, told: seq<Effect>)
    requires i <= SegmentCount(|file|)
  {
    var s, h, n := k.sender, HeaderOf(k.sender.transaction), SegmentCount(|file|);
    var sum := SourceSum(c, s.transaction.sourceName, file, c.stale(k.w.clock + 3 * (n - i) + 1));
    && k'.sender == s.(state := Completed, isSuspended := false, isFrozen := false, transaction := s.transaction.(filePosition := |file|))
    && k'.receiver == k.receiver && k'.seqNumber == k.seqNumber && k'.w.files == k.w.files
    && k'.w.log == k.w.log + told + AllSent(SegmentPdus(h, file, i)) + [Sent(Pdu(h, Eof(s.condition, sum, |file|)))]
       + [Indicated(TheSender, EofSent, s.id), Indicated(TheSender, TransactionFinished, s.id)]
  }

  lemma LoopSendsRest(c: Config, k: Core, file: seq<bv8>, i: nat, s: Sender, w: World, told: seq<Effect>)
    requires Unhindered(c, k, file, i)
    requires s == k.sender.(isSuspended := false, isFrozen := false) && w == k.w.(log := k.w.log + told)
    ensures var (s', w') := SendLoop(c, s, w); SendsRest(c, k, k.(sender := s', w := w'), file, i, told)
  {
    hide HeaderOf, SendLoop, SourceSum, AllSent, SegmentPdus;
    SegmentBounds(|file|, SegmentCount(|file|));
    LoopSendsAll(c, s, w, file, i);
  }

  /** When the transport is ready, a sender that is not paused sends the rest. */
  lemma ReadyCall(c: Config, k: Core, file: seq<bv8>, i: nat)
    requires Unhindered(c, k, file, i) && !k.sender.isSuspended && !k.sender.isFrozen
    ensures SendsRest(c, k, Step(c, k, CallTransportReady), file, i, [])
  {
    hide SendLoop, SendsRest, Willing, ValidIds, HeaderOf, Sends;
    assert k.w.log + [] == k.w.log;
    LoopSendsRest(c, k, file, i, k.sender, k.w, []);
  }

  /** A resume request ends the suspension, tells it, and sends the rest unless the sender is frozen. */
  lemma ResumeCall(c: Config, k: Core, file: seq<bv8>, i: nat)
    requires Unhindered(c, k, file, i) && !k.sender.isFrozen
    ensures SendsRest(c, k, Step(c, k, CallResume(k.sender.id)), file, i,
                      if k.sender.isSuspended then [Indicated(TheSender, Resumed, k.sender.id)] else [])
  {
    hide SendLoop, SendsRest, Willing, ValidIds, HeaderOf, Sends;
    assert k.w.log + [] == k.w.log;
    var told := if k.sender.isSuspended then [Indicated(TheSender, Resumed, k.sender.id)] else [];
    LoopSendsRest(c, k, file, i, k.sender.(isSuspended := false), k.w.(log := k.w.log + told), told);
  }

  lemma ResumeFrozen(c: Config, k: Core)
    requires IsSending(k) && k.sender.isFrozen
    ensures Step(c, k, CallResume(k.sender.id))
         == if k.sender.isSuspended then Logged(k.(sender := k.sender.(isSuspended := false)), [Indicated(TheSender, Resumed, k.sender.id)])
            else k
  {}

  /** A thaw for the destination of a frozen sender sends the rest unless the sender is suspended. */
  lemma ThawCall(c: Config, k: Core, file: seq<bv8>, i: nat)
    requires Unhindered(c, k, file, i) && k.sender.isFrozen && !k.sender.isSuspended
    ensures SendsRest(c, k, Step(c, k, CallThaw(k.sender.transaction.destination)), file, i, [])
  {
    hide SendLoop, SendsRest, Willing, ValidIds, HeaderOf, Sends;
    assert k.w.log + [] == k.w.log;
    LoopSendsRest(c, k, file, i, k.sender.(isFrozen := false), k.w, []);
  }

  lemma ThawElsewhere(c: Config, k: Core, destination: nat)
    requires k.sender.state != SendMetadata
    requires destination != k.sender.transaction.destination || !IsSending(k) || !k.sender.isFrozen || k.sender.isSuspended
    ensures Step(c, k, CallThaw(destination))
         == if destination == k.sender.transaction.destination && IsSending(k) then k.(sender := k.sender.(isFrozen := false)) else k
  {}

  /** A call that lets the sender go on, and what it does before. */
  predicate GoesOn(k: Core, call: Call) {
    match call
    case CallTransportReady => !k.sender.isSuspended && !k.sender.isFrozen
    case CallResume(id) => id == k.sender.id && !k.sender.isFrozen
    case CallThaw(destination) => destination == k.sender.transaction.destination && k.sender.isFrozen && !k.sender.isSuspended
    case _ => false
  }

  function GoingOn(k: Core): Core {
    var k1 := k.(sender := k.sender.(isSuspended := false, isFrozen := false));
    if k.sender.isSuspended then Logged(k1, [Indicated(TheSender, Resumed, k.sender.id)]) else k1
  }

  lemma GoesOnLoop(c: Config, k: Core, call: Call)
    requires IsSending(k) && GoesOn(k, call)
    ensures var (s, w) := SendLoop(c, GoingOn(k).sender, GoingOn(k).w); Step(c, k, call) == GoingOn(k).(sender := s, w := w)
  {
    hide SendLoop;
  }

  /** If the transport is not ready then, nothing is sent. */
  lemma NotReady(c: Config, k: Core, call: Call)
    requires IsSending(k) && GoesOn(k, call) && !c.answers(k.w.clock)
    ensures Step(c, k, call) == GoingOn(k).(w := Tick(GoingOn(k).w))
  {
    GoesOnLoop(c, k, call);
  }

  /** If the next segment cannot be read, the sender reports that and closes. */
  lemma ReadRefused(c: Config, k: Core, call: Call)
    requires IsSending(k) && GoesOn(k, call) && c.answers(k.w.clock) && !IsSendComplete(k.sender.transaction)
    requires var t := k.sender.transaction;
      (!c.answers(k.w.clock + 1) && t.sourceName != LISTING_NAME) || |SourceFile(c, k.w.files, t.sourceName)| < t.filePosition + SegmentLength(t)
    ensures var k1 := GoingOn(k);
      Step(c, k, call) == Logged(k1.(sender := k1.sender.(state := Completed), w := k1.w.(clock := k.w.clock + 2)), [Error(FilestoreError)])
  {
    GoesOnLoop(c, k, call);
  }

  /** If the transport does not take the next segment, the sender reports that and closes; the position has
      moved on. */
  lemma SegmentRefused(c: Config, k: Core, call: Call)
    requires IsSending(k) && GoesOn(k, call) && c.answers(k.w.clock) && c.answers(k.w.clock + 1) && !c.answers(k.w.clock + 2)
    requires var t := k.sender.transaction; !IsSendComplete(t) && t.filePosition + SegmentLength(t) <= |SourceFile(c, k.w.files, t.sourceName)|
    requires Encodable(Pdu(HeaderOf(k.sender.transaction), FileData(k.sender.transaction.filePosition, [])))
    ensures var k1, t := GoingOn(k), k.sender.transaction;
      Step(c, k, call) == Logged(k1.(sender := k1.sender.(state := Completed, transaction := t.(filePosition := t.filePosition + SegmentLength(t))),
                                     w := k1.w.(clock := k.w.clock + 3)), [Error(TransportError)])
  {
    hide Copied, MinimalBytes;
    GoesOnLoop(c, k, call);
    var t := k.sender.transaction;
    CopiedLength(SourceFile(c, k.w.files, t.sourceName)[t.filePosition..t.filePosition + SegmentLength(t)]);
  }

  /** If the transport does not take the EOF, the sender reports that and closes without having finished. */
  lemma EofRefused(c: Config, k: Core, call: Call)
    requires IsSending(k) && GoesOn(k, call) && c.answers(k.w.clock) && !c.answers(k.w.clock + 2)
    requires IsSendComplete(k.sender.transaction) && ValidIds(HeaderOf(k.sender.transaction))
    ensures var k' := Step(c, k, call);
      && k'.sender.state == Completed && k'.receiver == k.receiver && k'.w.files == k.w.files
      && k'.w.log == GoingOn(k).w.log + [Error(TransportError)]
  {
    hide MinimalBytes, SourceSum;
    GoesOnLoop(c, k, call);
    var t := k.sender.transaction;
    SumBound(c, t.sourceName, SourceFile(c, k.w.files, t.sourceName), c.stale(k.w.clock + 1));
  }

  // ---------- cancelling ----------

  /** The EOF of a cancelled transaction: the checksum and the size that the file has now. */
  function CancelEof(c: Config, t: Transaction, w: World): Pdu {
    var file := SourceFile(c, w.files, t.sourceName);
    Pdu(HeaderOf(t), if t.sourceName == [] then Eof(CancelRequestReceived, 0, 0)
                     else Eof(CancelRequestReceived, SourceSum(c, t.sourceName, file, c.stale(w.clock)), |file| % UINT32))
  }

  /** A cancelled sender sends one such EOF, or reports why it cannot, tells that it has finished, and is
      done. */
  lemma CancelCall(c: Config, k: Core)
    requires IsSending(k)
    ensures var k', t, eof := Step(c, k, CallCancel(k.sender.id)), k.sender.transaction, CancelEof(c, k.sender.transaction, k.w);
      && k'.sender.state == Completed && k'.sender.condition == CancelRequestReceived && k'.sender.id == k.sender.id
      && k'.receiver == k.receiver && k'.w.files == k.w.files && k'.seqNumber == k.seqNumber
      && k'.w.log == k.w.log
         + [if !ValidIds(HeaderOf(t)) then Error(Asn1sccError) else if !c.answers(k.w.clock + 1) then Error(TransportError) else Sent(eof)]
         + [Indicated(TheSender, TransactionFinished, k.sender.id)]
  {
    hide MinimalBytes, SourceSum;
    var t := k.sender.transaction;
    SumBound(c, t.sourceName, SourceFile(c, k.w.files, t.sourceName), c.stale(k.w.clock));
    assert t.sourceName == [] ==> SourceSum(c, t.sourceName, SourceFile(c, k.w.files, t.sourceName), c.stale(k.w.clock)) == 0 by { NamelessSum(c, SourceFile(c, k.w.files, t.sourceName), c.stale(k.w.clock)); }
  }

  lemma NamelessSum(c: Config, file: seq<bv8>, word: Word)
    ensures SourceSum(c, [], file, word) == 0
  {}

  /** A cancelled receiver finishes as such. */
  lemma CancelReceiving(c: Config, k: Core)
    requires IsReceivers(k, k.receiver.id)
    ensures Step(c, k, CallCancel(k.receiver.id))
         == Logged(k.(receiver := k.receiver.(state := Completed, condition := CancelRequestReceived)),
                   [Indicated(TheReceiver, TransactionFinished, k.receiver.id)])
  {}

  // ---------- other requests ----------

  /** A report request is answered with one report indication by the machine that has the transaction. */
  lemma ReportCall(c: Config, k: Core, id: TransactionId)
    ensures id == k.sender.id && IsSending(k) ==> Step(c, k, CallReport(id)) == Logged(k, [Indicated(TheSender, Report, id)])
    ensures IsReceivers(k, id) ==> Step(c, k, CallReport(id)) == Logged(k, [Indicated(TheReceiver, Report, id)])
  {}

  /** A receiver can be neither suspended nor resumed. */
  lemma PauseReceiving(c: Config, k: Core)
    requires IsReceivers(k, k.receiver.id)
    ensures Step(c, k, CallSuspend(k.receiver.id)) == Logged(k, [Error(UnsupportedAction)])
    ensures Step(c, k, CallResume(k.receiver.id)) == Logged(k, [Error(UnsupportedAction)])
  {}

  /** Requests for a transaction that nobody has, or that is over, do nothing. */
  lemma RequestNobody(c: Config, k: Core, id: TransactionId)
    requires IsNobodys(k, id)
    ensures Step(c, k, CallCancel(id)) == Step(c, k, CallSuspend(id)) == Step(c, k, CallResume(id)) == Step(c, k, CallReport(id)) == k
    ensures k.sender.state == Completed ==> Step(c, k, CallTransportReady) == k
  {}

  /** The inactivity timeout finishes a waiting receiver as cancelled. If the sender has the same
      transaction id, the sender gets it, and complains if it is sending. */
  lemma TimerCall(c: Config, k: Core)
    requires IsWaiting(k.receiver) && k.sender.state != SendMetadata
    ensures Step(c, k, CallTimerExpired)
         == if k.receiver.id != k.sender.id
            then Logged(k.(receiver := k.receiver.(state := Completed, condition := CancelRequestReceived)),
                        [Indicated(TheReceiver, TransactionFinished, k.receiver.id)])
            else if IsSending(k) then Logged(k, [Error(UnsupportedAction)]) else k
  {
    hide RunFaultHandler, SendLoop;
    if k.receiver.id != k.sender.id {
      TimeoutIs(c, k, k.receiver.transaction, None);
      FaultPath(c, k, InactivityDetected);
    }
  }

  /** What the actions of a fault handler are, for a machine that is busy with the transaction. */
  lemma FaultActions(c: Config, k: Core, id: TransactionId)
    requires IsReceivers(k, id)
    ensures RunFaultHandler(c, k, id, CancelAction) == Step(c, k, CallCancel(id))
    ensures RunFaultHandler(c, k, id, SuspendAction) == Step(c, k, CallSuspend(id))
    ensures RunFaultHandler(c, k, id, IgnoreAction) == k
    ensures RunFaultHandler(c, k, id, AbandonAction)
         == Logged(k.(receiver := k.receiver.(state := Completed)), [Indicated(TheReceiver, Abandoned, id)])
  {}

  lemma SenderFaultActions(c: Config, k: Core)
    requires IsSending(k)
    ensures var id := k.sender.id;
      && RunFaultHandler(c, k, id, CancelAction) == Step(c, k, CallCancel(id))
      && RunFaultHandler(c, k, id, SuspendAction) == Step(c, k, CallSuspend(id))
      && RunFaultHandler(c, k, id, IgnoreAction) == k
      && RunFaultHandler(c, k, id, AbandonAction) == Logged(k.(sender := k.sender.(state := Completed)), [Indicated(TheSender, Abandoned, id)])
  {
    hide SenderCancelled, SendLoop;
  }

  // ---------- puts ----------

  /** The PDUs of a transfer, field by field. */
  lemma TransferFields(c: Config, t: Transaction, file: seq<bv8>, checksum: nat)
    ensures var h, n, pdus := HeaderOf(t), SegmentCount(|file|), TransferPdus(c, t, file, checksum);
      && |pdus| == n + 2
      && pdus[0] == Pdu(h, Metadata(Requested, c.checksumType, |file|, t.sourceName, t.destinationName))
      && pdus[n + 1] == Pdu(h, Eof(NoError, checksum, |file|))
    ensures forall i | 0 <= i < SegmentCount(|file|) ::
      var to := if 4096 * (i + 1) <= |file| then 4096 * (i + 1) else |file|;
      4096 * i < to && TransferPdus(c, t, file, checksum)[i + 1] == Pdu(HeaderOf(t), FileData(4096 * i, Copied(file[4096 * i..to])))
  {
    hide HeaderOf, Copied;
    forall i | 0 <= i < SegmentCount(|file|)
      ensures var to := if 4096 * (i + 1) <= |file| then 4096 * (i + 1) else |file|;
        4096 * i < to && TransferPdus(c, t, file, checksum)[i + 1] == Pdu(HeaderOf(t), FileData(4096 * i, Copied(file[4096 * i..to])))
    {
      SegmentBounds(|file|, i);
    }
  }

  /** What every put begins with. */
  function Beginning(k: Core, id: TransactionId): seq<Effect> {
    k.w.log + [Started(TheSender, id), Indicated(TheSender, TransactionStarted, id)]
  }

  /** A put without a source or a destination name sends Metadata and at once an EOF, and finishes. */
  lemma PutWithoutFile(c: Config, k: Core, destination: nat, sourceName: Name, destinationName: Name)
    requires var t := NextTransaction(c, k, destination, sourceName, destinationName);
      !IsFileTransfer(t) && ValidIds(HeaderOf(t)) && Willing(c, k.w.clock)
    ensures var t, k' := NextTransaction(c, k, destination, sourceName, destinationName), Step(c, k, CallPut(destination, sourceName, destinationName));
      var file, id := SourceFile(c, k.w.files, t.sourceName), IdOf(t.source, t.seqNumber);
      var size, sum := if t.sourceName == [] then 0 else |file| % UINT32, SourceSum(c, t.sourceName, file, c.stale(k.w.clock + 1));
      && k'.sender.state == Completed && k'.sender.id == id && k'.receiver == k.receiver && k'.w.files == k.w.files
      && k'.w.log == Beginning(k, id)
         + [Sent(Pdu(HeaderOf(t), Metadata(Requested, c.checksumType, size, t.sourceName, t.destinationName))), Sent(Pdu(HeaderOf(t), Eof(NoError, sum, size)))]
         + [Indicated(TheSender, EofSent, id), Indicated(TheSender, TransactionFinished, id)]
  {
    hide ClippedName, SenderPut, MinimalBytes, SourceSum;
    var t := NextTransaction(c, k, destination, sourceName, destinationName);
    ClippedIsShort(sourceName); ClippedIsShort(destinationName);
    var s := InitSender(k.sender, t);
    WithoutFile(c, s, Emit(k.w, Started(TheSender, s.id)));
  }

  lemma WithoutFile(c: Config, s: Sender, w: World)
    requires !IsFileTransfer(s.transaction) && ValidIds(HeaderOf(s.transaction)) && Willing(c, w.clock) && s.condition.NoError?
    requires |s.transaction.sourceName| < MAX_FILE_NAME && |s.transaction.destinationName| < MAX_FILE_NAME
    ensures var (s', w') := SenderPut(c, s, w);
      var t, file := s.transaction, SourceFile(c, w.files, s.transaction.sourceName);
      var size, sum := if t.sourceName == [] then 0 else |file| % UINT32, SourceSum(c, t.sourceName, file, c.stale(w.clock + 1));
      && s'.state == Completed && s'.id == s.id && w'.files == w.files
      && w'.log == w.log + [Indicated(TheSender, TransactionStarted, s.id)]
         + [Sent(Pdu(HeaderOf(t), Metadata(Requested, c.checksumType, size, t.sourceName, t.destinationName))), Sent(Pdu(HeaderOf(t), Eof(NoError, sum, size)))]
         + [Indicated(TheSender, EofSent, s.id), Indicated(TheSender, TransactionFinished, s.id)]
  {
    hide MinimalBytes, SourceSum, TransmitEof, TransmitMetadata;
    var w1 := Tell(s, w, TransactionStarted);
    MetadataGoes(c, s, w1);
    var a := TransmitMetadata(c, s, w1);
    EofGoes(c, a.s, a.w);
    SameHeader(s.transaction, a.s.transaction);
  }

  lemma MetadataGoes(c: Config, s: Sender, w: World)
    requires ValidIds(HeaderOf(s.transaction)) && c.answers(w.clock)
    requires |s.transaction.sourceName| < MAX_FILE_NAME && |s.transaction.destinationName| < MAX_FILE_NAME
    ensures var t, size := s.transaction, SourceSize(c, s.transaction, w);
      TransmitMetadata(c, s, w) == Attempt(true, s.(transaction := if t.sourceName == [] then t else t.(fileSize := size)),
        w.(clock := w.clock + 1, log := w.log + [Sent(Pdu(HeaderOf(t), Metadata(Requested, c.checksumType, size, t.sourceName, t.destinationName)))]))
  {
    hide MinimalBytes;
  }

  lemma EofGoes(c: Config, s: Sender, w: World)
    requires ValidIds(HeaderOf(s.transaction)) && c.answers(w.clock + 1)
    ensures var t, size := s.transaction, SourceSize(c, s.transaction, w);
      var sum := SourceSum(c, t.sourceName, SourceFile(c, w.files, t.sourceName), c.stale(w.clock));
      TransmitEof(c, s, w) == Attempt(true, s.(transaction := if t.sourceName == [] then t else t.(fileSize := size)),
        w.(clock := w.clock + 2, log := w.log + [Sent(Pdu(HeaderOf(t), Eof(s.condition, sum, size)))]))
  {
    hide MinimalBytes, SourceSum;
    var t := s.transaction;
    SumBound(c, t.sourceName, SourceFile(c, w.files, t.sourceName), c.stale(w.clock));
  }

  /** If the transport does not take the Metadata, the put ends with an error. */
  lemma PutRefused(c: Config, k: Core, destination: nat, sourceName: Name, destinationName: Name)
    requires ValidIds(HeaderOf(NextTransaction(c, k, destination, sourceName, destinationName))) && !c.answers(k.w.clock)
    ensures var t, k' := NextTransaction(c, k, destination, sourceName, destinationName), Step(c, k, CallPut(destination, sourceName, destinationName));
      && k'.sender.state == Completed && k'.receiver == k.receiver && k'.w.files == k.w.files
      && k'.w.log == Beginning(k, IdOf(t.source, t.seqNumber)) + [Error(TransportError)]
  {
    hide ClippedName, MinimalBytes;
    ClippedIsShort(sourceName); ClippedIsShort(destinationName);
  }

  /** If the transport takes the Metadata but is not ready for more, the sender waits in front of the first
      segment, neither suspended nor frozen, whatever the transaction before was. */
  lemma PutWaits(c: Config, k: Core, destination: nat, sourceName: Name, destinationName: Name, file: seq<bv8>)
    requires var t := NextTransaction(c, k, destination, sourceName, destinationName); ValidIds(HeaderOf(t)) && Sends(c, t, file, k.w)
    requires c.answers(k.w.clock) && !c.answers(k.w.clock + 1)
    ensures var t, k' := NextTransaction(c, k, destination, sourceName, destinationName), Step(c, k, CallPut(destination, sourceName, destinationName));
      var id := IdOf(t.source, t.seqNumber);
      && k'.sender == Sender(SendFile, id, t.(fileSize := |file|, filePosition := 0), NoError, false, false)
      && k'.receiver == k.receiver && k'.w.files == k.w.files
      && k'.w.log == Beginning(k, id) + [Sent(Pdu(HeaderOf(t), Metadata(Requested, c.checksumType, |file|, t.sourceName, t.destinationName)))]
  {
    hide ClippedName, MinimalBytes;
    ClippedIsShort(sourceName); ClippedIsShort(destinationName);
  }

  /** Every put takes the next sequence number, modulo 2^32, and no other call takes one. */
  lemma {:induction false} PutNumbers(c: Config, k: Core, calls: seq<Call>)
    requires k.seqNumber < UINT32
    ensures Run(c, k, calls).seqNumber == (k.seqNumber + PutCount(calls)) % UINT32
  {
    hide SenderStep, IssueRequest, ReceivePdu;
    if calls != [] {
      PutNumbers(c, k, calls[..|calls| - 1]);
      if !calls[|calls| - 1].CallPut? { KeepsNumber(c, Run(c, k, calls[..|calls| - 1]), calls[|calls| - 1]); }
    }
  }

  lemma IssueKeepsNumber(c: Config, k: Core, id: TransactionId, e: Event)
    requires Accompanied(e, None)
    ensures IssueRequest(c, k, id, e).seqNumber == k.seqNumber
  {
    hide SenderStep, ReceiverStep;
    ReceiverKeepsNumber(c, k, e, k.receiver.transaction, None);
  }

  lemma ReceiverKeepsNumber(c: Config, k: Core, e: Event, t: Transaction, p: Option<Payload>)
    requires Accompanied(e, p)
    ensures ReceiverStep(c, k, e, t, p).seqNumber == k.seqNumber
  {
    hide SenderStep, RunFaultHandler, ReceiveEof, ChecksumOf, SumOf, WriteAt;
    if IsWaiting(k.receiver) {
      FaultPath(c, k, InactivityDetected);
      if e.E12ReceivedEofNoError? && k.receiver.state == WaitForEof { EofKeepsNumber(c, k, p.value.checksum, p.value.fileSize); }
    }
  }

  lemma EofKeepsNumber(c: Config, k: Core, checksum: nat, fileSize: nat)
    requires k.receiver.state == WaitForEof
    ensures ReceiveEof(c, k, checksum, fileSize).seqNumber == k.seqNumber
  {
    hide SenderStep, RunFaultHandler, SumOf, Acceptable;
    if IsFileTransfer(k.receiver.transaction) {
      hide ReceiveEof;
      ReceiveEofIs(c, k, checksum, fileSize);
    }
  }

  lemma KeepsNumber(c: Config, k: Core, call: Call)
    requires !call.CallPut?
    ensures Step(c, k, call).seqNumber == k.seqNumber
  {
    hide SenderStep, ReceiverStep, IssueRequest;
    match call
    case CallCancel(id) => IssueKeepsNumber(c, k, id, E33ReceivedCancelRequest);
    case CallSuspend(id) => IssueKeepsNumber(c, k, id, E31ReceivedSuspendRequest);
    case CallResume(id) => IssueKeepsNumber(c, k, id, E32ReceivedResumeRequest);
    case CallReport(id) => IssueKeepsNumber(c, k, id, E34ReceivedReportRequest);
    case CallFreeze(_) =>
    case CallThaw(_) =>
    case CallTransportReady => IssueKeepsNumber(c, k, k.sender.id, E1SendFileData);
    case CallReceived(pdu) => ReceivedKeepsNumber(c, k, pdu);
    case CallTimerExpired => IssueKeepsNumber(c, k, k.receiver.id, E27InactivityTimeout);
  }

  lemma ReceivedKeepsNumber(c: Config, k: Core, pdu: Option<Pdu>)
    ensures ReceivePdu(c, k, pdu).seqNumber == k.seqNumber
  {
    hide SenderStep, ReceiverStep, PduId, TransactionOf;
    if pdu.Some? {
      var p := pdu.value.payload;
      ReceiverKeepsNumber(c, Announced(k, p), EventOf(p), k.receiver.transaction, Some(p));
      var k1 := k.(receiver := k.receiver.(state := WaitForMd));
      ReceiverKeepsNumber(c, k1, E0EnteredState, TransactionOf(pdu.value), None);
      var k2 := ReceiverStep(c, k1, E0EnteredState, TransactionOf(pdu.value), None);
      ReceiverKeepsNumber(c, Announced(k2, p), EventOf(p), k2.receiver.transaction, Some(p));
    }
  }

  /** A put leaves the sender with the id of the transaction it starts. */
  lemma PutId(c: Config, k: Core, destination: nat, sourceName: Name, destinationName: Name)
    ensures var k' := Step(c, k, CallPut(destination, sourceName, destinationName));
      && k'.seqNumber == (k.seqNumber + 1) % UINT32
      && k'.sender.id == TransactionId(c.entityId % UINT32, (k.seqNumber + 1) % UINT32)
  {
    hide SenderStep, ClippedName;
    var t, s := NextTransaction(c, k, destination, sourceName, destinationName), k.sender.(state := SendMetadata);
    var (s1, w1) := SenderStep(c, s, k.w, E0EnteredState, t);
    StepKeepsId(c, s, k.w, E0EnteredState, t);
    StepKeepsId(c, s1, w1, E30ReceivedPutRequest, t);
  }

  /** Two puts fewer than 2^32 puts apart get different ids. */
  lemma PutsDiffer(c: Config, k: Core, destination: nat, sourceName: Name, destinationName: Name, calls: seq<Call>,
                   destination': nat, sourceName': Name, destinationName': Name)
    requires k.seqNumber < UINT32 && PutCount(calls) + 1 < UINT32
    ensures var k1 := Step(c, k, CallPut(destination, sourceName, destinationName));
      var k2 := Step(c, Run(c, k1, calls), CallPut(destination', sourceName', destinationName'));
      k1.sender.id != k2.sender.id
  {
    hide Step, Run;
    var k1 := Step(c, k, CallPut(destination, sourceName, destinationName));
    PutId(c, k, destination, sourceName, destinationName);
    PutNumbers(c, k1, calls);
    PutId(c, Run(c, k1, calls), destination', sourceName', destinationName');
  }

  function PutCount(calls: seq<Call>): nat {
    if calls == [] then 0 else PutCount(calls[..|calls| - 1]) + if calls[|calls| - 1].CallPut? then 1 else 0
  }

  // ---------- received PDUs ----------

  /** What no machine is there for is answered with an error: bytes that do not decode, the acknowledged
      mode, and, if no machine has the transaction, PDUs to a sender, Finished and Ack. */
  lemma PduRefused(c: Config, k: Core, p: Pdu)
    requires p.header.mode.Acknowledged?
          || ((PduId(p) == k.sender.id ==> k.sender.state.Completed?) && (PduId(p) == k.receiver.id ==> k.receiver.state.Completed?)
              && (p.header.direction.TowardSender? || p.payload.Finished? || p.payload.Ack?))
    ensures Step(c, k, CallReceived(Some(p))) == Logged(k, [Error(UnsupportedAction)])
    ensures Step(c, k, CallReceived(None)) == Logged(k, [Error(Asn1sccError)])
  {
    hide ValueOf;
  }

  /** A sender makes nothing of PDUs: in Class 1 nobody answers it. */
  lemma PduToSender(c: Config, k: Core, p: Pdu)
    requires IsSending(k) && PduId(p) == k.sender.id && p.header.mode.Unacknowledged?
    ensures Step(c, k, CallReceived(Some(p))) == Logged(k, (if p.payload.Ack? then [Error(UnsupportedAction)] else []) + [Error(UnsupportedAction)])
  {
    hide PduId, SendLoop;
  }

  /** A first PDU starts a receiver with the ids of its header; Metadata brings the names and the size. */
  lemma MetadataStarts(c: Config, k: Core, p: Pdu)
    requires IsOf(p, PduId(p)) && Fresh(k, PduId(p)) && p.payload.Metadata?
    ensures var h, id := p.header, PduId(p);
      var t := Transaction(ValueOf(h.source), ValueOf(h.seqNumber), ValueOf(h.destination),
                           UpToZero(p.payload.sourceName), UpToZero(p.payload.destinationName), p.payload.size, 0);
      Step(c, k, CallReceived(Some(p)))
      == Logged(k.(receiver := Receiver(WaitForEof, id, t, NoError, 0)), [Started(TheReceiver, id), Indicated(TheReceiver, MetadataReceived, id)])
  {
    hide ValueOf, UpToZero;
  }

  /** A transaction that begins with its EOF ends with it: without a word on the file, and with the EOF's
      condition. */
  lemma EofStarts(c: Config, k: Core, p: Pdu)
    requires IsOf(p, PduId(p)) && Fresh(k, PduId(p)) && p.payload.Eof?
    ensures var k', id := Step(c, k, CallReceived(Some(p))), PduId(p);
      && k'.receiver.state == Completed && k'.receiver.condition == p.payload.condition && k'.receiver.id == id
      && k'.sender == k.sender && k'.w.files == k.w.files
      && k'.w.log == k.w.log + [Started(TheReceiver, id), Indicated(TheReceiver, TransactionFinished, id)]
  {
    hide ValueOf;
  }

  /** The PDU belongs to the transaction of a waiting receiver. */
  predicate Reaches(k: Core, p: Pdu) {
    IsOf(p, k.receiver.id) && NotSending(k, k.receiver.id) && IsWaiting(k.receiver)
  }

  /** The EOF of a cancelled transaction finishes a waiting receiver with the condition it carries, whatever
      checksum and size it has; the files stay, and the receipt of an EOF is not told. */
  lemma EofCancels(c: Config, k: Core, p: Pdu)
    requires Reaches(k, p) && p.payload.Eof? && !p.payload.condition.NoError?
    ensures Step(c, k, CallReceived(Some(p)))
         == Logged(k.(receiver := k.receiver.(state := Completed, condition := p.payload.condition)),
                   [Indicated(TheReceiver, TransactionFinished, k.receiver.id)])
  {
    hide PduId;
    Routed(c, k, p);
  }

  /** Data written into a file stands at its offset; the rest of the file stays, and a gap is filled with
      zeros. */
  lemma WriteAtIs(older: seq<bv8>, offset: nat, data: seq<bv8>)
    ensures var r, end := WriteAt(older, offset, data), offset + |data|;
      && |r| == (if end > |older| then end else |older|)
      && r[offset..end] == data
      && r[..if offset <= |older| then offset else |older|] == older[..if offset <= |older| then offset else |older|]
      && (forall i | |older| <= i < offset :: r[i] == 0)
      && (end <= |older| ==> r[end..] == older[end..])
  {}

  /** A segment for a file is told and stored, or the receiver reports that it cannot be, and closes. Without
      a file it is only told. */
  lemma SegmentReceived(c: Config, k: Core, p: Pdu)
    requires Reaches(k, p) && k.receiver.state == WaitForEof && p.payload.FileData?
    ensures var k', r := Step(c, k, CallReceived(Some(p))), k.receiver;
      var told, name, end := Indicated(TheReceiver, FileSegmentReceived, r.id), r.transaction.destinationName, p.payload.offset + |p.payload.data|;
      if !IsFileTransfer(r.transaction) then k' == Logged(k, [told])
      else if c.answers(k.w.clock) then
        && k' == Logged(k.(receiver := r.(receivedFileSize := if r.receivedFileSize < end then end % UINT32 else r.receivedFileSize),
                           w := k.w.(clock := k.w.clock + 1, files := k'.w.files)),
                        [told, Stored(name, p.payload.offset, p.payload.data)])
        && k'.w.files == k.w.files[name := WriteAt(Contents(k.w.files, name), p.payload.offset, p.payload.data)]
      else k' == Logged(k.(receiver := r.(state := Completed), w := k.w.(clock := k.w.clock + 1)), [told, Error(FilestoreError)])
  {
    hide PduId, WriteAt;
    Routed(c, k, p);
  }

  /** Out of turn: FileData before the Metadata, Metadata once more, and PDUs for a sender. */
  lemma OutOfTurn(c: Config, k: Core, p: Pdu)
    requires Reaches(k, p)
    requires p.payload.Finished? || p.payload.Ack? || (p.payload.FileData? && k.receiver.state == WaitForMd)
          || (p.payload.Metadata? && k.receiver.state == WaitForEof)
    ensures Step(c, k, CallReceived(Some(p))) == Logged(k, (if p.payload.Ack? then [Error(UnsupportedAction)] else []) + [Error(UnsupportedAction)])
  {
    hide PduId;
    Routed(c, k, p);
  }

  /** A receiver without a file, or without the Metadata, is content with any EOF. */
  lemma EofWithoutFile(c: Config, k: Core, p: Pdu)
    requires Reaches(k, p) && IsComplete(p) && (k.receiver.state == WaitForMd || !IsFileTransfer(k.receiver.transaction))
    ensures Step(c, k, CallReceived(Some(p)))
         == Logged(k.(receiver := k.receiver.(state := Completed)),
                   (if k.receiver.state == WaitForEof then [Indicated(TheReceiver, EofReceived, k.receiver.id)] else [])
                   + [Indicated(TheReceiver, TransactionFinished, k.receiver.id)])
  {
    hide PduId;
    Routed(c, k, p);
  }

  /** With a file, an EOF that reports no error is told; then the receiver finishes, content or as cancelled.
      It is content if the file is no longer than announced and has the announced checksum; a file with
      another checksum is deleted. */
  lemma EofReceivedCall(c: Config, k: Core, p: Pdu)
    requires Reaches(k, p) && IsComplete(p) && k.receiver.state == WaitForEof && IsFileTransfer(k.receiver.transaction)
    requires k.receiver.id != k.sender.id && c.answers(k.w.clock + 1)
    ensures var k', r := Step(c, k, CallReceived(Some(p))), k.receiver;
      var name, short := r.transaction.destinationName, r.receivedFileSize <= p.payload.fileSize;
      var right := SumOf(c, Contents(k.w.files, name), c.stale(k.w.clock)) == p.payload.checksum;
      && k'.receiver == r.(state := Completed, condition := if short && right then r.condition else CancelRequestReceived)
      && k'.sender == k.sender
      && k'.w.files == (if short && !right then k.w.files - {name} else k.w.files)
      && k'.w.log == k.w.log + [Indicated(TheReceiver, EofReceived, r.id), Indicated(TheReceiver, TransactionFinished, r.id)]
  {
    hide PduId, SumOf, ReceiveEof;
    Routed(c, k, p);
    EofIs(c, k, k.receiver.transaction, p.payload);
    ReceiveEofIs(c, k, p.payload.checksum, p.payload.fileSize);
  }

  // ---------- events out of place ----------

  /** The events that a sender knows before its Metadata is sent, and after. */
  predicate SenderKnows(s: Sender, e: Event) {
    if s.state == SendMetadata then e.E0EnteredState? || e.E30ReceivedPutRequest?
    else e.E0EnteredState? || e.E1SendFileData? || e.E2AbandonTransaction? || e.E3NoticeOfCancellation? || e.E4NoticeOfSuspension?
         || e.E31ReceivedSuspendRequest? || e.E32ReceivedResumeRequest? || e.E33ReceivedCancelRequest? || e.E34ReceivedReportRequest?
         || e.E40ReceivedFreeze? || e.E41ReceivedThaw?
  }

  predicate ReceiverKnows(r: Receiver, e: Event) {
    e.E2AbandonTransaction? || e.E3NoticeOfCancellation? || e.E12ReceivedEofNoError? || e.E13ReceivedEofCancel? || e.E27InactivityTimeout?
    || e.E33ReceivedCancelRequest? || e.E34ReceivedReportRequest?
    || (if r.state == WaitForMd then e.E0EnteredState? || e.E10ReceivedMetadata? else e.E11ReceivedFileData?)
  }

  /** A busy machine complains about every other event and stays as it is; one that is done ignores all. */
  lemma Complaints(c: Config, k: Core, e: Event, t: Transaction, p: Option<Payload>)
    requires Accompanied(e, p)
    ensures (k.sender.state == SendMetadata || k.sender.state == SendFile) && !SenderKnows(k.sender, e) ==>
      SenderStep(c, k.sender, k.w, e, t) == (k.sender, Logged(k, [Error(UnsupportedAction)]).w)
    ensures k.sender.state == Completed ==> SenderStep(c, k.sender, k.w, e, t) == (k.sender, k.w)
    ensures IsWaiting(k.receiver) && !ReceiverKnows(k.receiver, e) ==> ReceiverStep(c, k, e, t, p) == Logged(k, [Error(UnsupportedAction)])
    ensures k.receiver.state == Completed ==> ReceiverStep(c, k, e, t, p) == k
  {
    hide SendLoop, SenderPut, SenderCancelled;
  }

  // ---------- a cancellation from end to end ----------

  /** A sender is cancelled, and its EOF arrives at a receiver that waits in this transaction: both finish as
      cancelled, and no file changes at either. */
  lemma CancelArrives(a: Config, ka: Core, b: Config, kb: Core, junk: Junk)
    requires IsSending(ka) && ValidIds(HeaderOf(ka.sender.transaction)) && a.answers(ka.w.clock + 1)
    requires ka.sender.id == IdOf(ka.sender.transaction.source, ka.sender.transaction.seqNumber)
    requires IsWaiting(kb.receiver) && kb.receiver.id == ka.sender.id && NotSending(kb, kb.receiver.id)
    ensures var ka', eof := Step(a, ka, CallCancel(ka.sender.id)), CancelEof(a, ka.sender.transaction, ka.w);
      && |ka'.w.log| == |ka.w.log| + 2 && ka'.w.log[|ka.w.log|] == Sent(eof) && Encodable(eof)
      && var kb' := Step(b, kb, Arrival(eof, junk));
      && ka'.sender.state == kb'.receiver.state == Completed
      && ka'.sender.condition == kb'.receiver.condition == CancelRequestReceived
      && ka'.w.files == ka.w.files && kb'.w.files == kb.w.files
      && kb'.w.log == kb.w.log + [Indicated(TheReceiver, TransactionFinished, kb.receiver.id)]
  {
    hide Step, Arrival, ReceivePdu, CancelEof, ValueOf, MinimalBytes;
    var t := ka.sender.transaction;
    var eof := CancelEof(a, t, ka.w);
    CancelCall(a, ka);
    CancelEofIs(a, t, ka.w);
    HeaderId(t);
    HeaderDirection(t);
    Arrives(b, kb, eof, junk);
    ReceivedStep(b, kb, eof);
    EofCancels(b, kb, eof);
  }

  lemma CancelEofIs(c: Config, t: Transaction, w: World)
    requires ValidIds(HeaderOf(t))
    ensures var eof := CancelEof(c, t, w); eof.header == HeaderOf(t) && eof.payload.Eof? && eof.payload.condition == CancelRequestReceived && Encodable(eof)
  {
    hide MinimalBytes, SourceSum;
    SumBound(c, t.sourceName, SourceFile(c, w.files, t.sourceName), c.stale(w.clock));
  }

  lemma ReceivedStep(c: Config, k: Core, p: Pdu)
    ensures Step(c, k, CallReceived(Some(p))) == ReceivePdu(c, k, Some(p))
  {
    hide ReceivePdu;
  }
}

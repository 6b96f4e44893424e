/** The Class 1 entity as functions on values: what one event makes of a machine, and what one public
    call makes of the entity (src/sender_machine.c, src/receiver_machine.c, src/cfdp_core.c,
    src/transaction.c). Class CfdpCore is proved against these functions, and the properties of runs are
    proved about them.

    The filestore is a map from names to contents. Whether the transport is ready or accepts a PDU, and
    whether the filestore performs an access, is answered by an oracle. What the entity does to its
    surroundings is recorded in a log. */
module Protocol {
  import opened CStrings
  import opened Identifiers
  import opened Integers
  import opened Pdus
  import Checksums

  const SEGMENT: nat := 4096      // FILE_SEGMENT_BUFFER_SIZE
  const MAX_FILE_NAME: nat := 128 // MAX_FILE_NAME_SIZE

  const LISTING_BUFFER: nat := 1024 // VIRTUAL_SOURCE_FILE_BUFFER_SIZE

  type Name = seq<bv8>

  const LISTING_NAME: Name := [0x2E, 0x6C, 0x69, 0x73, 0x74, 0x69, 0x6E, 0x67] // VIRTUAL_LISTING_FILENAME

  type Word = w: seq<bv8> | |w| == 4 witness [0, 0, 0, 0]

  /** The directory listing in memory, which stands behind the name LISTING_NAME. */
  datatype Area = Area(buffer: seq<bv8>, size: nat)

  type Listing = a: Area | |a.buffer| == LISTING_BUFFER && a.size <= LISTING_BUFFER witness Area(seq(LISTING_BUFFER, _ => 0), 0)

  /** entityId, checksumType: as given to cfdp_core_init. charSigned: whether the compiler's char is
      signed. answers: what the surroundings answer to the n-th request. stale: what an uninitialised
      buffer holds at that time. */
  datatype Config = Config(
    entityId: nat, checksumType: ChecksumType, charSigned: bool, listing: Listing,
    answers: nat -> bool, stale: nat -> Word)

  datatype TransactionId = TransactionId(source: nat, seqNumber: nat)

  datatype Transaction = Transaction(
    source: nat, seqNumber: nat, destination: nat, sourceName: Name, destinationName: Name,
    fileSize: nat, filePosition: nat)

  datatype MachineState = SendMetadata | SendFile | WaitForMd | WaitForEof | Completed

  datatype Sender = Sender(
    state: MachineState, id: TransactionId, transaction: Transaction, condition: ConditionCode,
    isFrozen: bool, isSuspended: bool)

  datatype Receiver = Receiver(
    state: MachineState, id: TransactionId, transaction: Transaction, condition: ConditionCode,
    receivedFileSize: nat)

  datatype Event =
    | E0EnteredState | E1SendFileData | E2AbandonTransaction | E3NoticeOfCancellation | E4NoticeOfSuspension
    | E10ReceivedMetadata | E11ReceivedFileData | E12ReceivedEofNoError | E13ReceivedEofCancel
    | E16ReceivedFinishedNoError | E17ReceivedFinishedCancel | E27InactivityTimeout
    | E30ReceivedPutRequest | E31ReceivedSuspendRequest | E32ReceivedResumeRequest
    | E33ReceivedCancelRequest | E34ReceivedReportRequest | E40ReceivedFreeze | E41ReceivedThaw | E50Noop

  datatype Role = TheSender | TheReceiver

  datatype Indication =
    | TransactionStarted | EofSent | TransactionFinished | Report | EofReceived | MetadataReceived
    | FileSegmentReceived | Abandoned | Suspended | Resumed

  datatype ErrorType = Asn1sccError | UnsupportedAction | FilestoreError | TransportError

  /** Started marks the start of a transaction in a machine, which the source does not announce. */
  datatype Effect =
    | Started(role: Role, id: TransactionId)
    | Indicated(role: Role, indication: Indication, id: TransactionId)
    | Sent(pdu: Pdu)
    | Stored(name: Name, offset: nat, data: seq<bv8>)
    | Error(error: ErrorType)

  datatype World = World(files: map<Name, seq<bv8>>, clock: nat, log: seq<Effect>)

  datatype Core = Core(sender: Sender, receiver: Receiver, seqNumber: nat, w: World)

  // ---------- surroundings ----------

  function Emit(w: World, e: Effect): World { w.(log := w.log + [e]) }

  function Tick(w: World): World { w.(clock := w.clock + 1) }

  function Contents(files: map<Name, seq<bv8>>, name: Name): seq<bv8> {
    if name in files then files[name] else []
  }

  /** data put over old at offset, zeros between the old end and a later offset */
  function WriteAt(old_: seq<bv8>, offset: nat, data: seq<bv8>): (r: seq<bv8>)
    ensures |r| == if offset + |data| > |old_| then offset + |data| else |old_|
  {
    seq(if offset + |data| > |old_| then offset + |data| else |old_|, i requires 0 <= i =>
      if offset <= i < offset + |data| then data[i - offset] else if i < |old_| then old_[i] else 0)
  }

  function IdOf(source: nat, seqNumber: nat): TransactionId {
    TransactionId(source % UINT32, seqNumber % UINT32)
  }

  // ---------- src/transaction.c ----------

  predicate IsFileTransfer(t: Transaction) { t.sourceName != [] && t.destinationName != [] }

  predicate IsSendComplete(t: Transaction) { t.filePosition >= t.fileSize }

  /** What a source name stands for. */
  function SourceFile(c: Config, files: map<Name, seq<bv8>>, name: Name): seq<bv8> {
    if name == LISTING_NAME then c.listing.buffer[..c.listing.size] else Contents(files, name)
  }

  /** The current size of the source file, cut to 32 bits. */
  function SourceSize(c: Config, t: Transaction, w: World): nat {
    if t.sourceName == [] then 0 else |SourceFile(c, w.files, t.sourceName)| % UINT32
  }

  /** transaction_get_file_size notes the size in the transaction. */
  function Sized(c: Config, t: Transaction, w: World): Transaction {
    if t.sourceName == [] then t else t.(fileSize := SourceSize(c, t, w))
  }

  /** calucate_file_checksum: word is what its buffer holds at first. */
  function SumOf(c: Config, file: seq<bv8>, word: Word): nat {
    Checksums.FileChecksumOf(file, word, c.charSigned, c.checksumType)
  }

  function ChecksumOf(c: Config, name: Name, w: World): nat {
    SumOf(c, Contents(w.files, name), c.stale(w.clock))
  }

  /** The checksum of a source file with the given contents: the listing's is that of bytes in memory. */
  function SourceSum(c: Config, name: Name, file: seq<bv8>, word: Word): nat {
    if name == [] then 0
    else if name == LISTING_NAME then Checksums.DataChecksumOf(c.listing.buffer, c.listing.size, c.checksumType)
    else SumOf(c, file, word)
  }

  function SegmentLength(t: Transaction): nat
    requires !IsSendComplete(t)
  {
    if t.fileSize - t.filePosition > SEGMENT then SEGMENT else t.fileSize - t.filePosition
  }

  // ---------- src/sender_machine.c ----------

  datatype Attempt = Attempt(ok: bool, s: Sender, w: World)

  function HeaderOf(t: Transaction): Header {
    Header(1, TowardReceiver, Unacknowledged, CrcNotPresent,
           MinimalBytes(t.source), MinimalBytes(t.seqNumber), MinimalBytes(t.destination))
  }

  function Transmit(c: Config, s: Sender, w: World, p: Pdu): Attempt {
    if !Encodable(p) then Attempt(false, s, Emit(w, Error(Asn1sccError)))
    else if !c.answers(w.clock) then Attempt(false, s, Emit(Tick(w), Error(TransportError)))
    else Attempt(true, s, Emit(Tick(w), Sent(p)))
  }

  function MetadataPdu(c: Config, t: Transaction, size: nat): Pdu {
    Pdu(HeaderOf(t), Metadata(Requested, c.checksumType, size, t.sourceName, t.destinationName))
  }

  function MetadataOf(c: Config, t: Transaction, w: World): Pdu { MetadataPdu(c, t, SourceSize(c, t, w)) }

  function TransmitMetadata(c: Config, s: Sender, w: World): Attempt {
    Transmit(c, s.(transaction := Sized(c, s.transaction, w)), w, MetadataOf(c, s.transaction, w))
  }

  /** The file is read before the PDU is built; the position moves on even if sending then fails. Reading
      the listing does not ask the filestore. */
  function TransmitFileData(c: Config, s: Sender, w: World): Attempt
    requires !IsSendComplete(s.transaction)
  {
    var t := s.transaction;
    var file, n := SourceFile(c, w.files, t.sourceName), SegmentLength(t);
    if (t.sourceName != LISTING_NAME && !c.answers(w.clock)) || t.filePosition + n > |file| then
      Attempt(false, s, Emit(Tick(w), Error(FilestoreError)))
    else
      var data := Copied(file[t.filePosition..t.filePosition + n]);
      Transmit(c, s.(transaction := t.(filePosition := t.filePosition + n)), Tick(w), Pdu(HeaderOf(t), FileData(t.filePosition, data)))
  }

  function EofPdu(h: Header, condition: ConditionCode, checksum: nat, size: nat): Pdu { Pdu(h, Eof(condition, checksum, size)) }

  function EofOf(c: Config, s: Sender, w: World): Pdu {
    var t := s.transaction;
    EofPdu(HeaderOf(t), s.condition, SourceSum(c, t.sourceName, SourceFile(c, w.files, t.sourceName), c.stale(w.clock)), SourceSize(c, t, w))
  }

  function TransmitEof(c: Config, s: Sender, w: World): Attempt {
    Transmit(c, s.(transaction := Sized(c, s.transaction, w)), Tick(w), EofOf(c, s, w))
  }

  /** Only the identifiers of a transaction appear in its headers. */
  lemma SameHeader(t: Transaction, t': Transaction)
    requires t'.source == t.source && t'.seqNumber == t.seqNumber && t'.destination == t.destination
    ensures HeaderOf(t') == HeaderOf(t)
  {}

  /** A segment that is sent moves the position on by its length, and changes nothing else. */
  lemma FileDataAdvances(c: Config, s: Sender, w: World)
    requires !IsSendComplete(s.transaction)
    ensures var a := TransmitFileData(c, s, w);
      a.s.id == s.id && (a.ok ==> a.s == s.(transaction := s.transaction.(filePosition := s.transaction.filePosition + SegmentLength(s.transaction))))
  {}

  function Close(s: Sender): Sender { s.(state := Completed) }

  function Tell(s: Sender, w: World, i: Indication): World { Emit(w, Indicated(TheSender, i, s.id)) }

  function InitSender(s: Sender, t: Transaction): Sender {
    Sender(SendMetadata, IdOf(t.source, t.seqNumber), t, NoError, false, false)
  }

  /** E1_SEND_FILE_DATA, which the machine issues to itself again after each segment. */
  function SendLoop(c: Config, s: Sender, w: World): (r: (Sender, World))
    requires s.state == SendFile
    decreases if IsSendComplete(s.transaction) then 0 else s.transaction.fileSize - s.transaction.filePosition
  {
    if s.isSuspended || s.isFrozen then (s, w)
    else if !c.answers(w.clock) then (s, Tick(w))
    else if IsSendComplete(s.transaction) then
      var a := TransmitEof(c, s, Tick(w));
      if !a.ok then (Close(a.s), a.w) else (Close(a.s), Tell(s, Tell(s, a.w, EofSent), TransactionFinished))
    else
      var a := TransmitFileData(c, s, Tick(w));
      if !a.ok then (Close(a.s), a.w) else SendLoop(c, a.s, a.w)
  }

  function SenderPut(c: Config, s: Sender, w: World): (Sender, World) {
    var a := TransmitMetadata(c, s, Tell(s, w, TransactionStarted));
    if !a.ok then (Close(a.s), a.w)
    else if IsFileTransfer(a.s.transaction) then SendLoop(c, a.s.(state := SendFile), a.w)
    else SenderWithoutFile(c, a.s, a.w)
  }

  /** Without a file the EOF follows the Metadata at once. */
  function SenderWithoutFile(c: Config, s: Sender, w: World): (Sender, World) {
    var a := TransmitEof(c, s, w);
    if !a.ok then (Close(a.s), a.w) else (Close(a.s), Tell(s, Tell(s, a.w, EofSent), TransactionFinished))
  }

  /** E3: the EOF is sent if it can be; the machine finishes either way. */
  function SenderCancelled(c: Config, s: Sender, w: World): (Sender, World) {
    var a := TransmitEof(c, s, w);
    (Close(a.s), Tell(s, a.w, TransactionFinished))
  }

  function SenderSuspended(s: Sender, w: World): (Sender, World) {
    if s.isSuspended then (s, w) else (s.(isSuspended := true), Tell(s, w, Suspended))
  }

  function SenderResumed(c: Config, s: Sender, w: World): (Sender, World)
    requires s.state == SendFile
  {
    if s.isSuspended then SendLoop(c, s.(isSuspended := false), Tell(s, w, Resumed)) else SendLoop(c, s, w)
  }

  function SenderStep(c: Config, s: Sender, w: World, e: Event, t: Transaction): (Sender, World) {
    match s.state
    case SendMetadata => (
      match e
      case E0EnteredState => (InitSender(s, t), Emit(w, Started(TheSender, IdOf(t.source, t.seqNumber))))
      case E30ReceivedPutRequest => SenderPut(c, s, w)
      case _ => (s, Emit(w, Error(UnsupportedAction))))
    case SendFile => (
      match e
      case E0EnteredState => SendLoop(c, s, w)
      case E1SendFileData => SendLoop(c, s, w)
      case E2AbandonTransaction => (Close(s), Tell(s, w, Abandoned))
      case E3NoticeOfCancellation => SenderCancelled(c, s, w)
      case E4NoticeOfSuspension => SenderSuspended(s, w)
      case E31ReceivedSuspendRequest => SenderSuspended(s, w)
      case E32ReceivedResumeRequest => SenderResumed(c, s, w)
      case E33ReceivedCancelRequest => SenderCancelled(c, s.(condition := CancelRequestReceived), w)
      case E34ReceivedReportRequest => (s, Tell(s, w, Report))
      case E40ReceivedFreeze => (s.(isFrozen := true), w)
      case E41ReceivedThaw => if s.isFrozen then SendLoop(c, s.(isFrozen := false), w) else (s, w)
      case _ => (s, Emit(w, Error(UnsupportedAction))))
    case _ => (s, w)
  }

  function SenderEvent(c: Config, k: Core, e: Event): Core {
    var (s, w) := SenderStep(c, k.sender, k.w, e, k.sender.transaction);
    k.(sender := s, w := w)
  }

  // ---------- src/receiver_machine.c ----------

  /** Events that come with a PDU, and which one. */
  predicate Accompanied(e: Event, p: Option<Payload>) {
    && (e.E11ReceivedFileData? ==> p.Some? && p.value.FileData?)
    && (e.E12ReceivedEofNoError? || e.E13ReceivedEofCancel? ==> p.Some? && p.value.Eof?)
  }

  datatype FaultAction = CancelAction | SuspendAction | IgnoreAction | AbandonAction

  /** DEFAULT_FAULT_HANDLER_ACTIONS; its entry 13, to ignore, belongs to no condition code. */
  function DefaultAction(condition: ConditionCode): FaultAction {
    if condition.NoError? then IgnoreAction else CancelAction
  }

  function Notify(k: Core, i: Indication): Core {
    k.(w := Emit(k.w, Indicated(TheReceiver, i, k.receiver.id)))
  }

  function Fail(k: Core, error: ErrorType): Core { k.(w := Emit(k.w, Error(error))) }

  function CloseReceiver(k: Core): Core { k.(receiver := k.receiver.(state := Completed)) }

  function FinishReceiver(k: Core): Core { CloseReceiver(Notify(k, TransactionFinished)) }

  function WithCondition(k: Core, condition: ConditionCode): Core {
    k.(receiver := k.receiver.(condition := condition))
  }

  function InitReceiver(k: Core, t: Transaction): Core {
    k.(receiver := Receiver(k.receiver.state, IdOf(t.source, t.seqNumber), t, NoError, 0),
       w := Emit(k.w, Started(TheReceiver, IdOf(t.source, t.seqNumber))))
  }

  /** transaction_store_data_to_file and the received file size, a 32-bit variable */
  function StoreSegment(c: Config, k: Core, offset: nat, data: seq<bv8>): Core {
    var r := k.receiver;
    var name, end := r.transaction.destinationName, offset + |data|;
    if !c.answers(k.w.clock) then CloseReceiver(Fail(k.(w := Tick(k.w)), FilestoreError))
    else
      var files := k.w.files[name := WriteAt(Contents(k.w.files, name), offset, data)];
      k.(receiver := if r.receivedFileSize < end then r.(receivedFileSize := end % UINT32) else r,
         w := Emit(Tick(k.w).(files := files), Stored(name, offset, data)))
  }

  function DeleteStoredFile(c: Config, k: Core): Core {
    if !c.answers(k.w.clock) then CloseReceiver(Fail(k.(w := Tick(k.w)), FilestoreError))
    else k.(w := Tick(k.w).(files := k.w.files - {k.receiver.transaction.destinationName}))
  }

  function Rank(e: Event): nat {
    match e
    case E33ReceivedCancelRequest => 1
    case E12ReceivedEofNoError => 3
    case E27InactivityTimeout => 3
    case _ => 0
  }

  function ReceiveEof(c: Config, k: Core, checksum: nat, fileSize: nat): Core
    decreases 2, 4
  {
    var k := Notify(k, EofReceived);
    if !IsFileTransfer(k.receiver.transaction) then FinishReceiver(k)
    else if k.receiver.receivedFileSize > fileSize then
      RunFaultHandler(c, k, k.receiver.id, DefaultAction(FileSizeError))
    else if ChecksumOf(c, k.receiver.transaction.destinationName, k.w) != checksum then
      DeleteStoredFile(c, RunFaultHandler(c, k.(w := Tick(k.w)), k.receiver.id, DefaultAction(FileChecksumFailure)))
    else FinishReceiver(k.(w := Tick(k.w)))
  }

  function ReceiverStep(c: Config, k: Core, e: Event, t: Transaction, p: Option<Payload>): Core
    requires Accompanied(e, p)
    decreases Rank(e), 0
  {
    var r := k.receiver;
    if r.state != WaitForMd && r.state != WaitForEof then k
    else
      match e
      case E2AbandonTransaction => CloseReceiver(Notify(k, Abandoned))
      case E3NoticeOfCancellation => FinishReceiver(k)
      case E13ReceivedEofCancel => FinishReceiver(WithCondition(k, p.value.condition))
      case E27InactivityTimeout => RunFaultHandler(c, k, r.id, DefaultAction(InactivityDetected))
      case E33ReceivedCancelRequest => IssueRequest(c, WithCondition(k, CancelRequestReceived), r.id, E3NoticeOfCancellation)
      case E34ReceivedReportRequest => Notify(k, Report)
      case E0EnteredState => if r.state == WaitForMd then InitReceiver(k, t) else Fail(k, UnsupportedAction)
      case E10ReceivedMetadata =>
        if r.state == WaitForMd then
          var k := Notify(k, MetadataReceived);
          k.(receiver := k.receiver.(state := WaitForEof))
        else Fail(k, UnsupportedAction)
      case E11ReceivedFileData =>
        if r.state == WaitForMd then Fail(k, UnsupportedAction)
        else
          var k := Notify(k, FileSegmentReceived);
          if IsFileTransfer(r.transaction) then StoreSegment(c, k, p.value.offset, p.value.data) else k
      case E12ReceivedEofNoError =>
        if r.state == WaitForMd then FinishReceiver(k) else ReceiveEof(c, k, p.value.checksum, p.value.fileSize)
      case _ => Fail(k, UnsupportedAction)
  }

  // ---------- src/cfdp_core.c ----------

  /** The sender's transaction id is looked at first. */
  function IssueRequest(c: Config, k: Core, id: TransactionId, e: Event): Core
    requires Accompanied(e, None)
    decreases Rank(e), 1
  {
    if id == k.sender.id then SenderEvent(c, k, e)
    else if id == k.receiver.id then ReceiverStep(c, k, e, k.receiver.transaction, None)
    else k
  }

  function RunFaultHandler(c: Config, k: Core, id: TransactionId, action: FaultAction): Core
    decreases 2, 2
  {
    match action
    case CancelAction => IssueRequest(c, k, id, E33ReceivedCancelRequest)
    case SuspendAction => IssueRequest(c, k, id, E31ReceivedSuspendRequest)
    case IgnoreAction => k
    case AbandonAction => IssueRequest(c, k, id, E2AbandonTransaction)
  }

  function ClippedName(name: Name): Name {
    var n := UpToZero(name);
    if |n| >= MAX_FILE_NAME then n[..MAX_FILE_NAME - 1] else n
  }

  function Put(c: Config, k: Core, destination: nat, sourceName: Name, destinationName: Name): Core {
    var seqNumber := (k.seqNumber + 1) % UINT32;
    var t := Transaction(c.entityId, seqNumber, destination, ClippedName(sourceName), ClippedName(destinationName), 0, 0);
    var (s1, w1) := SenderStep(c, k.sender.(state := SendMetadata), k.w, E0EnteredState, t);
    var (s2, w2) := SenderStep(c, s1, w1, E30ReceivedPutRequest, t);
    k.(sender := s2, seqNumber := seqNumber, w := w2)
  }

  /** cfdp_core_issue_link_state_procedure */
  function LinkState(c: Config, k: Core, destination: nat, e: Event): Core {
    if k.sender.transaction.destination == destination then SenderEvent(c, k, e) else k
  }

  function EventOf(p: Payload): Event {
    match p
    case FileData(_, _) => E11ReceivedFileData
    case Eof(condition, _, _) => if condition.NoError? then E12ReceivedEofNoError else E13ReceivedEofCancel
    case Finished(condition, _, _) => if condition.NoError? then E16ReceivedFinishedNoError else E17ReceivedFinishedCancel
    case Metadata(_, _, _, _, _) => E10ReceivedMetadata
    case Ack(_, _, _, _) => E50Noop
  }

  /** create_event_for_delivery complains about an Ack and delivers it all the same. */
  function Announced(k: Core, p: Payload): Core {
    if p.Ack? then Fail(k, UnsupportedAction) else k
  }

  function DeliverToReceiver(c: Config, k: Core, p: Payload): Core {
    ReceiverStep(c, Announced(k, p), EventOf(p), k.receiver.transaction, Some(p))
  }

  /** Only a Metadata PDU brings the file names. */
  function TransactionOf(p: Pdu): Transaction {
    var h := p.header;
    var t := Transaction(ValueOf(h.source), ValueOf(h.seqNumber), ValueOf(h.destination), [], [], 0, 0);
    match p.payload
    case Metadata(_, _, size, sourceName, destinationName) =>
      t.(sourceName := UpToZero(sourceName), destinationName := UpToZero(destinationName), fileSize := size)
    case _ => t
  }

  function NewReceiver(c: Config, k: Core, p: Pdu): Core {
    if p.header.direction.TowardSender? then Fail(k, UnsupportedAction)
    else if p.payload.Finished? || p.payload.Ack? then Fail(k, UnsupportedAction)
    else
      var k := k.(receiver := k.receiver.(state := WaitForMd));
      DeliverToReceiver(c, ReceiverStep(c, k, E0EnteredState, TransactionOf(p), None), p.payload)
  }

  function PduId(p: Pdu): TransactionId { IdOf(ValueOf(p.header.source), ValueOf(p.header.seqNumber)) }

  /** A received PDU, or None for bytes that do not decode. */
  function ReceivePdu(c: Config, k: Core, pdu: Option<Pdu>): Core {
    match pdu
    case None => Fail(k, Asn1sccError)
    case Some(p) =>
      if p.header.mode.Acknowledged? then Fail(k, UnsupportedAction)
      else if PduId(p) == k.sender.id && !k.sender.state.Completed? then SenderEvent(c, Announced(k, p.payload), EventOf(p.payload))
      else if PduId(p) == k.receiver.id && !k.receiver.state.Completed? then DeliverToReceiver(c, k, p.payload)
      else NewReceiver(c, k, p)
  }

  // ---------- runs ----------

  datatype Call =
    | CallPut(destination: nat, sourceName: Name, destinationName: Name)
    | CallCancel(id: TransactionId)
    | CallSuspend(id: TransactionId)
    | CallResume(id: TransactionId)
    | CallReport(id: TransactionId)
    | CallFreeze(destination: nat)
    | CallThaw(destination: nat)
    | CallTransportReady
    | CallReceived(pdu: Option<Pdu>)
    | CallTimerExpired

  function Step(c: Config, k: Core, call: Call): Core {
    match call
    case CallPut(destination, sourceName, destinationName) => Put(c, k, destination, sourceName, destinationName)
    case CallCancel(id) => IssueRequest(c, k, id, E33ReceivedCancelRequest)
    case CallSuspend(id) => IssueRequest(c, k, id, E31ReceivedSuspendRequest)
    case CallResume(id) => IssueRequest(c, k, id, E32ReceivedResumeRequest)
    case CallReport(id) => IssueRequest(c, k, id, E34ReceivedReportRequest)
    case CallFreeze(destination) => LinkState(c, k, destination, E40ReceivedFreeze)
    case CallThaw(destination) => LinkState(c, k, destination, E41ReceivedThaw)
    case CallTransportReady => IssueRequest(c, k, k.sender.id, E1SendFileData)
    case CallReceived(pdu) => ReceivePdu(c, k, pdu)
    case CallTimerExpired => IssueRequest(c, k, k.receiver.id, E27InactivityTimeout)
  }

  function Run(c: Config, k: Core, calls: seq<Call>): Core {
    if calls == [] then k else Step(c, Run(c, k, calls[..|calls| - 1]), calls[|calls| - 1])
  }

  /** After cfdp_core_init: both machines are idle and nothing has happened. All else is left as it was. */
  predicate Initial(k: Core) {
    k.sender.state == Completed && k.receiver.state == Completed && k.w.log == []
  }
}

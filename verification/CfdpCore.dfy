/** The entity as the source has it: machines whose fields change in place, which call each other and
    themselves through IssueRequest, and buffers that PDUs are encoded to and decoded from. Every method
    is proved against its function in module Protocol; what is sent and received are bytes, tied to PDUs
    by module Wire. */
module CfdpCores {
  import opened BitSequences
  import opened BitStreams
  import opened CStrings
  import opened Framing
  import opened Identifiers
  import opened Integers
  import opened PduDecoder
  import opened PduEncoder
  import opened Pdus
  import opened Protocol
  import opened Wire
  import Checksums

  const PDU_BUFFER_SIZE: nat := 4632 // the PDU and two messages to user, rounded up to eight

  /** The frames of the PDUs that a log says were sent. */
  ghost function FramesIn(log: seq<Effect>): seq<seq<bv8>> {
    if log == [] then []
    else
      match log[|log| - 1]
      case Sent(p) => FramesIn(log[..|log| - 1]) + (if Encodable(p) then [Frame(p)] else [])
      case _ => FramesIn(log[..|log| - 1])
  }

  lemma FramesAfter(log: seq<Effect>, e: Effect)
    ensures FramesIn(log + [e]) == match e case Sent(p) => FramesIn(log) + (if Encodable(p) then [Frame(p)] else []) case _ => FramesIn(log)
  {
    assert (log + [e])[..|log|] == log;
  }

  /** The PDUs that a log says were sent. */
  ghost function PdusIn(log: seq<Effect>): seq<Pdu> {
    if log == [] then []
    else
      match log[|log| - 1]
      case Sent(p) => PdusIn(log[..|log| - 1]) + (if Encodable(p) then [p] else [])
      case _ => PdusIn(log[..|log| - 1])
  }

  /** The bytes given to the transport are, one for one, those of the PDUs sent: each frame decodes to
      its PDU, whatever follows it in a receive buffer. */
  lemma {:induction false} FramesDecode(log: seq<Effect>, i: nat, junk: seq<bv8>)
    requires i < |FramesIn(log)| && |junk| >= 34
    ensures |FramesIn(log)| == |PdusIn(log)|
    ensures Unframe(FramesIn(log)[i] + junk, |FramesIn(log)[i]|) == Some(PdusIn(log)[i])
  {
    hide Frame, Unframe, Encodable;
    SameNumber(log);
    if log != [] {
      var before, e := log[..|log| - 1], log[|log| - 1];
      SameNumber(before);
      if i < |FramesIn(before)| {
        FramesDecode(before, i, junk);
      } else {
        FrameRoundTrip(e.pdu, junk);
      }
    }
  }

  lemma {:induction false} SameNumber(log: seq<Effect>)
    ensures |FramesIn(log)| == |PdusIn(log)|
  {
    hide Frame, Encodable;
    if log != [] { SameNumber(log[..|log| - 1]); }
  }

  /** The filestore, the transport and the user's callbacks. */
  class Surroundings {
    const config: Config
    var files: map<Name, seq<bv8>>
    var clock: nat
    var log: seq<Effect>
    var frames: seq<seq<bv8>>

    ghost predicate Valid()
      reads this
    {
      frames == FramesIn(log)
    }

    ghost function View(): World
      reads this
    {
      World(files, clock, log)
    }

    constructor (config: Config, files: map<Name, seq<bv8>>)
      ensures Valid() && this.config == config && View() == World(files, 0, [])
    {
      this.config, this.files, clock, log, frames := config, files, 0, [], [];
    }

    method Note(e: Effect)
      requires Valid() && !e.Sent?
      modifies this
      ensures Valid() && View() == Emit(old(View()), e)
    {
      FramesAfter(log, e);
      log := log + [e];
    }

    method Ask() returns (agreed: bool)
      requires Valid()
      modifies this
      ensures Valid() && View() == Tick(old(View())) && agreed == config.answers(old(clock))
    {
      agreed := config.answers(clock);
      clock := clock + 1;
    }

    /** A four-byte buffer that nobody has filled. */
    method Uninitialised() returns (word: Word)
      requires Valid()
      modifies this
      ensures Valid() && View() == Tick(old(View())) && word == config.stale(old(clock))
    {
      word := config.stale(clock);
      clock := clock + 1;
    }

    /** A use of memory takes a turn as well. */
    method Turn()
      requires Valid()
      modifies this
      ensures Valid() && View() == Tick(old(View()))
    {
      clock := clock + 1;
    }

    method FileSize(name: Name) returns (size: nat)
      ensures size == |Contents(files, name)|
    {
      size := |Contents(files, name)|;
    }

    method ReadFile(name: Name, offset: nat, length: nat) returns (ok: bool, data: seq<bv8>)
      requires Valid()
      modifies this
      ensures Valid() && View() == Tick(old(View()))
      ensures ok == (config.answers(old(clock)) && offset + length <= |Contents(old(files), name)|)
      ensures ok ==> data == Contents(old(files), name)[offset..offset + length]
    {
      ok := Ask();
      var file := Contents(files, name);
      ok := ok && offset + length <= |file|;
      data := if ok then file[offset..offset + length] else [];
    }

    method WriteFile(name: Name, offset: nat, data: seq<bv8>) returns (ok: bool)
      requires Valid()
      modifies this
      ensures Valid() && ok == config.answers(old(clock))
      ensures !ok ==> View() == Tick(old(View()))
      ensures ok ==> View() == Emit(Tick(old(View())).(files := old(files)[name := WriteAt(Contents(old(files), name), offset, data)]), Stored(name, offset, data))
    {
      hide WriteAt;
      ok := Ask();
      if ok {
        files := files[name := WriteAt(Contents(files, name), offset, data)];
        Note(Stored(name, offset, data));
      }
    }

    method DeleteFile(name: Name) returns (ok: bool)
      requires Valid()
      modifies this
      ensures Valid() && ok == config.answers(old(clock))
      ensures View() == if ok then Tick(old(View())).(files := old(files) - {name}) else Tick(old(View()))
    {
      ok := Ask();
      if ok {
        files := files - {name};
      }
    }

    /** What the transport is handed must be the frame of an encodable PDU. */
    method SendFrame(frame: seq<bv8>, p: Pdu) returns (ok: bool)
      requires Valid() && Encodable(p) && frame == Frame(p)
      modifies this
      ensures Valid() && ok == config.answers(old(clock))
      ensures View() == if ok then Emit(Tick(old(View())), Sent(p)) else Tick(old(View()))
    {
      hide Frame, FramesIn, Encodable;
      ok := Ask();
      if ok {
        FramesAfter(log, Sent(p));
        log, frames := log + [Sent(p)], frames + [frame];
      }
    }
  }

  class SenderMachine {
    var state: MachineState
    var transactionId: TransactionId
    var transaction: Transaction
    var conditionCode: ConditionCode
    var isFrozen: bool
    var isSuspended: bool

    ghost function View(): Sender
      reads this
    {
      Sender(state, transactionId, transaction, conditionCode, isFrozen, isSuspended)
    }

    /** Idle, as cfdp_core_init leaves it, in memory that was zero. */
    constructor ()
      ensures state == Completed && ShortIds() && transaction.sourceName == []
    {
      state, transactionId, transaction := Completed, TransactionId(0, 0), Transaction(0, 0, 0, [], [], 0, 0);
      conditionCode, isFrozen, isSuspended := NoError, false, false;
    }

    /** Identifiers of at most seven bytes. */
    ghost predicate ShortIds()
      reads this
    {
      transaction.source < UINT56 && transaction.seqNumber < UINT56 && transaction.destination < UINT56
    }

    method Init(t: Transaction)
      modifies this
      ensures View() == InitSender(old(View()), t)
    {
      transaction := t;
      transactionId := IdOf(t.source, t.seqNumber);
      conditionCode := NoError;
      isFrozen := false;
      isSuspended := false;
      state := SendMetadata;
    }

    method Shut()
      modifies this`state
      ensures View() == Close(old(View()))
    {
      state := Completed;
    }

    method CreatePduHeader() returns (header: Header)
      requires ShortIds()
      ensures header == HeaderOf(transaction)
    {
      hide MinimalBytes;
      var source, seqNumber, destination := new bv8[7], new bv8[7], new bv8[7];
      var m := BytesBigEndian(transaction.source, source);
      var n := BytesBigEndian(transaction.destination, destination);
      var k := BytesBigEndian(transaction.seqNumber, seqNumber);
      header := Header(1, TowardReceiver, Unacknowledged, CrcNotPresent, source[..m], seqNumber[..k], destination[..n]);
    }
  }

  class ReceiverMachine {
    var state: MachineState
    var transactionId: TransactionId
    var transaction: Transaction
    var conditionCode: ConditionCode
    var receivedFileSize: nat

    ghost function View(): Receiver
      reads this
    {
      Receiver(state, transactionId, transaction, conditionCode, receivedFileSize)
    }

    constructor ()
      ensures state == Completed
    {
      state, transactionId, transaction := Completed, TransactionId(0, 0), Transaction(0, 0, 0, [], [], 0, 0);
      conditionCode, receivedFileSize := NoError, 0;
    }
  }

  class CfdpCore {
    const entityId: nat
    const checksumType: ChecksumType
    const sender: SenderMachine
    const receiver: ReceiverMachine
    const surroundings: Surroundings
    const pduBuffer: array<bv8>
    const modifiedPduBuffer: array<bv8>
    var transactionSequenceNumber: nat

    /** A transaction that sends the listing is no longer than the listing. */
    ghost predicate ListingFits(t: Transaction) {
      t.sourceName == LISTING_NAME ==> t.fileSize <= surroundings.config.listing.size
    }

    ghost predicate Valid()
      reads this, sender, surroundings
    {
      && surroundings.Valid() && sender.ShortIds() && ListingFits(sender.transaction)
      && entityId == surroundings.config.entityId < UINT32 && checksumType == surroundings.config.checksumType
      && transactionSequenceNumber < UINT32
      && pduBuffer != modifiedPduBuffer && pduBuffer.Length == modifiedPduBuffer.Length == PDU_BUFFER_SIZE
    }

    ghost function View(): Core
      reads this, sender, receiver, surroundings
    {
      Core(sender.View(), receiver.View(), transactionSequenceNumber, surroundings.View())
    }

    constructor (config: Config, files: map<Name, seq<bv8>>)
      requires config.entityId < UINT32
      ensures Valid() && Initial(View()) && surroundings.config == config && surroundings.files == files
      ensures fresh(sender) && fresh(receiver) && fresh(surroundings) && fresh(pduBuffer) && fresh(modifiedPduBuffer)
    {
      entityId, checksumType := config.entityId, config.checksumType;
      sender := new SenderMachine();
      receiver := new ReceiverMachine();
      surroundings := new Surroundings(config, files);
      pduBuffer := new bv8[PDU_BUFFER_SIZE];
      modifiedPduBuffer := new bv8[PDU_BUFFER_SIZE];
      transactionSequenceNumber := 0;
    }

    // ---------- sending ----------

    /** Encodes p at the start of the cleared PDU buffer. */
    method EncodeToBuffer(p: Pdu) returns (ok: bool, currentByte: nat)
      requires Valid()
      modifies pduBuffer
      ensures ok == Encodable(p)
      ensures ok ==> currentByte == |EncodedBytes(p)| <= pduBuffer.Length && pduBuffer[..currentByte] == EncodedBytes(p)
    {
      hide PduBits, BitsOf, EncodedBytes, Encodable;
      currentByte := 0;
      var bitStream := new BitStream.Init(pduBuffer, PDU_BUFFER_SIZE);
      ok := EncodePdu(p, bitStream);
      if ok {
        currentByte := bitStream.currentByte;
        EncodedInBuffer(p, bitStream);
      }
    }

    method IssueError(error: ErrorType)
      requires Valid()
      modifies surroundings
      ensures Valid() && surroundings.View() == Emit(old(surroundings.View()), Error(error))
    {
      surroundings.Note(Error(error));
    }

    method TellSender(i: Indication)
      requires Valid()
      modifies surroundings
      ensures Valid() && surroundings.View() == Tell(sender.View(), old(surroundings.View()), i)
    {
      surroundings.Note(Indicated(TheSender, i, sender.transactionId));
    }

    method TellReceiver(i: Indication)
      requires Valid()
      modifies surroundings
      ensures Valid() && View() == Notify(old(View()), i)
    {
      surroundings.Note(Indicated(TheReceiver, i, receiver.transactionId));
    }

    /** Encodes and sends a file directive. */
    method TransmitDirective(p: Pdu) returns (ok: bool)
      requires Valid() && !p.payload.FileData?
      modifies surroundings, pduBuffer
      ensures Valid()
      ensures var a := Transmit(surroundings.config, sender.View(), old(surroundings.View()), p);
        ok == a.ok && surroundings.View() == a.w
    {
      hide EncodedBytes, Encodable, FramesIn;
      var currentByte;
      ok, currentByte := EncodeToBuffer(p);
      if !ok {
        IssueError(Asn1sccError);
        return;
      }
      ok := surroundings.SendFrame(pduBuffer[..currentByte], p);
      if !ok {
        IssueError(TransportError);
      }
    }

    /** Encodes file data, cuts out the determinant and sends the rest. */
    method TransmitSegment(p: Pdu) returns (ok: bool)
      requires Valid() && p.payload.FileData?
      modifies surroundings, pduBuffer, modifiedPduBuffer
      ensures Valid()
      ensures var a := Transmit(surroundings.config, sender.View(), old(surroundings.View()), p);
        ok == a.ok && surroundings.View() == a.w
    {
      hide EncodedBytes, Encodable, FramesIn, Strip;
      var currentByte;
      ok, currentByte := EncodeToBuffer(p);
      if !ok {
        IssueError(Asn1sccError);
        return;
      }
      StripRoom(p);
      StripDeterminant(pduBuffer, modifiedPduBuffer, currentByte, |p.payload.data|);
      ok := surroundings.SendFrame(modifiedPduBuffer[..currentByte - DETERMINANT_SIZE], p);
      if !ok {
        IssueError(TransportError);
      }
    }

    /** transaction_get_file_size */
    method GetFileSize() returns (size: nat)
      requires Valid()
      modifies sender`transaction
      ensures Valid() && size == SourceSize(surroundings.config, old(sender.transaction), surroundings.View())
      ensures sender.transaction == Sized(surroundings.config, old(sender.transaction), surroundings.View())
    {
      var name := sender.transaction.sourceName;
      if name == [] {
        return 0;
      }
      if name == LISTING_NAME {
        size := surroundings.config.listing.size;
      } else {
        var n := surroundings.FileSize(name);
        size := n % UINT32;
      }
      sender.transaction := sender.transaction.(fileSize := size);
    }

    /** transaction_get_file_segment, for a transfer that is not complete */
    method GetSegment() returns (ok: bool, data: seq<bv8>)
      requires Valid() && !IsSendComplete(sender.transaction)
      modifies sender`transaction, surroundings
      ensures Valid()
      ensures var t, c, w := old(sender.transaction), surroundings.config, old(surroundings.View());
        var file, n := SourceFile(c, w.files, t.sourceName), SegmentLength(t);
        && ok == ((t.sourceName == LISTING_NAME || c.answers(w.clock)) && t.filePosition + n <= |file|)
        && (ok ==> data == file[t.filePosition..t.filePosition + n] && surroundings.View() == Tick(w)
                   && sender.transaction == t.(filePosition := t.filePosition + n))
        && (!ok ==> surroundings.View() == Emit(Tick(w), Error(FilestoreError)) && sender.transaction == t)
    {
      hide FramesIn;
      var t := sender.transaction;
      var length := SegmentLength(t);
      if t.sourceName == LISTING_NAME {
        surroundings.Turn();
        ok, data := true, surroundings.config.listing.buffer[t.filePosition..t.filePosition + length];
      } else {
        ok, data := surroundings.ReadFile(t.sourceName, t.filePosition, length);
        if !ok {
          IssueError(FilestoreError);
          return;
        }
      }
      sender.transaction := t.(filePosition := t.filePosition + length);
    }

    /** The checksum of a stored file */
    method GetChecksum(name: Name) returns (checksum: nat)
      requires Valid()
      modifies surroundings
      ensures Valid() && surroundings.View() == Tick(old(surroundings.View()))
      ensures checksum == ChecksumOf(surroundings.config, name, old(surroundings.View()))
    {
      hide FramesIn;
      var buffer := surroundings.Uninitialised();
      var file := Contents(surroundings.files, name);
      checksum := Checksums.FileChecksum(file, buffer, surroundings.config.charSigned, checksumType);
    }

    /** transaction_get_file_checksum */
    method GetSourceChecksum() returns (checksum: nat)
      requires Valid()
      modifies surroundings
      ensures Valid() && surroundings.View() == Tick(old(surroundings.View()))
      ensures var c, name, w := surroundings.config, sender.transaction.sourceName, old(surroundings.View());
        checksum == SourceSum(c, name, SourceFile(c, w.files, name), c.stale(w.clock))
    {
      hide Checksums.FileChecksumOf, Checksums.DataChecksumOf, FramesIn;
      var name := sender.transaction.sourceName;
      if name == [] {
        surroundings.Turn();
        checksum := 0;
      } else if name == LISTING_NAME {
        surroundings.Turn();
        var listing := surroundings.config.listing;
        checksum := Checksums.DataChecksum(listing.buffer, listing.size, checksumType);
      } else {
        checksum := GetChecksum(name);
      }
    }

    method SenderSendMetadata() returns (ok: bool)
      requires Valid()
      modifies sender, surroundings, pduBuffer
      ensures Valid()
      ensures var a := TransmitMetadata(surroundings.config, old(sender.View()), old(surroundings.View()));
        && ok == a.ok && surroundings.View() == a.w
        && (if ok then sender.View() == a.s else Close(sender.View()) == Close(a.s))
    {
      hide HeaderOf, Transmit;
      var header := sender.CreatePduHeader();
      var size := GetFileSize();
      var t := sender.transaction;
      var p := Pdu(header, Metadata(Requested, checksumType, size, t.sourceName, t.destinationName));
      SameHeader(old(sender.transaction), t);
      SenderKept(surroundings.config, sender.View(), surroundings.View(), p);
      ok := TransmitDirective(p);
      if !ok {
        sender.Shut();
      }
    }

    method SenderSendFileData() returns (ok: bool)
      requires Valid() && !IsSendComplete(sender.transaction)
      modifies sender, surroundings, pduBuffer, modifiedPduBuffer
      ensures Valid()
      ensures Attempt(ok, sender.View(), surroundings.View())
           == TransmitFileData(surroundings.config, old(sender.View()), old(surroundings.View()))
    {
      hide HeaderOf, Transmit, UpToZero, FramesIn;
      var header := sender.CreatePduHeader();
      var offset := sender.transaction.filePosition;
      var data;
      ok, data := GetSegment();
      if !ok {
        return;
      }
      var arr := new bv8[SEGMENT];
      CopyString(data, arr);
      var p := Pdu(header, FileData(offset, arr[..|data|]));
      SenderKept(surroundings.config, sender.View(), surroundings.View(), p);
      ok := TransmitSegment(p);
    }

    method SenderSendEof() returns (ok: bool)
      requires Valid()
      modifies sender, surroundings, pduBuffer
      ensures Valid()
      ensures Attempt(ok, sender.View(), surroundings.View())
           == TransmitEof(surroundings.config, old(sender.View()), old(surroundings.View()))
    {
      hide HeaderOf, Transmit, SourceSum, FramesIn;
      var header := sender.CreatePduHeader();
      var checksum := GetSourceChecksum();
      var size := GetFileSize();
      var p := Pdu(header, Eof(sender.conditionCode, checksum, size));
      SenderKept(surroundings.config, sender.View(), surroundings.View(), p);
      ok := TransmitDirective(p);
    }

    // ---------- the sender machine ----------

    /** What the sender has left to send: E1 is issued again only after this has become less. */
    ghost function Left(): nat
      reads this, sender
    {
      if IsSendComplete(sender.transaction) then 0 else sender.transaction.fileSize - sender.transaction.filePosition
    }

    /** A machine's request under its own transaction id comes back to it. */
    method IssueToItself(e: Event)
      requires Valid() && Accompanied(e, None)
      modifies sender, receiver, surroundings, pduBuffer, modifiedPduBuffer
      ensures Valid()
      ensures View() == After(old(View()), SenderStep(surroundings.config, old(sender.View()), old(surroundings.View()), e, old(sender.transaction)))
      decreases Level(e), Left(), 4
    {
      hide SenderStep, FramesIn;
      IssueRequest(sender.transactionId, e);
    }

    method SenderInSendMetadata(e: Event, t: Transaction)
      requires Valid() && sender.state == SendMetadata
      requires t.source < UINT56 && t.seqNumber < UINT56 && t.destination < UINT56 && ListingFits(t)
      modifies sender, receiver, surroundings, pduBuffer, modifiedPduBuffer
      ensures Valid()
      ensures View() == After(old(View()), SenderStep(surroundings.config, old(sender.View()), old(surroundings.View()), e, t))
      decreases Level(e), Left(), 0
    {
      hide TransmitMetadata, SenderWithoutFile, SendLoop, FramesIn;
      ghost var c, s, w := surroundings.config, sender.View(), surroundings.View();
      match e
      case E0EnteredState =>
        sender.Init(t);
        surroundings.Note(Started(TheSender, sender.transactionId));
      case E30ReceivedPutRequest =>
        TellSender(TransactionStarted);
        var ok := SenderSendMetadata();
        MetadataKeepsIds(c, s, Tell(s, w, TransactionStarted));
        if !ok {
          sender.Shut();
          return;
        }
        if IsFileTransfer(sender.transaction) {
          sender.state := SendFile;
          IssueToItself(E0EnteredState);
        } else {
          SenderSendsNoFile();
        }
      case _ =>
        IssueError(UnsupportedAction);
    }

    method SenderSendsNoFile()
      requires Valid()
      modifies sender, surroundings, pduBuffer
      ensures Valid()
      ensures View() == After(old(View()), SenderWithoutFile(surroundings.config, old(sender.View()), old(surroundings.View())))
    {
      hide TransmitEof, FramesIn;
      EofKeepsIds(surroundings.config, sender.View(), surroundings.View());
      var ok := SenderSendEof();
      if !ok {
        sender.Shut();
        return;
      }
      sender.Shut();
      TellSender(EofSent);
      TellSender(TransactionFinished);
    }

    method SenderSends(e: Event, t: Transaction)
      requires Valid() && sender.state == SendFile && e.E1SendFileData?
      modifies sender, receiver, surroundings, pduBuffer, modifiedPduBuffer
      ensures Valid()
      ensures View() == After(old(View()), SenderStep(surroundings.config, old(sender.View()), old(surroundings.View()), e, t))
      decreases Level(e), Left(), 0
    {
      hide TransmitFileData, TransmitEof, FramesIn;
      ghost var c, s, w := surroundings.config, sender.View(), surroundings.View();
      if sender.isSuspended || sender.isFrozen {
        return;
      }
      var ready := surroundings.Ask();
      if !ready {
        return;
      }
      if IsSendComplete(sender.transaction) {
        var ok := SenderSendEof();
        EofKeepsIds(c, s, Tick(w));
        if !ok {
          sender.Shut();
          return;
        }
        TellSender(EofSent);
        TellSender(TransactionFinished);
        sender.Shut();
        return;
      }
      var ok := SenderSendFileData();
      FileDataAdvances(c, s, Tick(w));
      if !ok {
        sender.Shut();
        return;
      }
      IssueToItself(E1SendFileData);
    }

    method SenderCancels()
      requires Valid()
      modifies sender, surroundings, pduBuffer
      ensures Valid()
      ensures View() == After(old(View()), SenderCancelled(surroundings.config, old(sender.View()), old(surroundings.View())))
    {
      hide TransmitEof, FramesIn;
      EofKeepsIds(surroundings.config, sender.View(), surroundings.View());
      var _ := SenderSendEof();
      TellSender(TransactionFinished);
      sender.Shut();
    }

    method SenderSuspends()
      requires Valid()
      modifies sender, surroundings
      ensures Valid()
      ensures View() == After(old(View()), SenderSuspended(old(sender.View()), old(surroundings.View())))
    {
      hide FramesIn;
      if !sender.isSuspended {
        TellSender(Suspended);
        sender.isSuspended := true;
      }
    }

    method SenderResumes(t: Transaction)
      requires Valid() && sender.state == SendFile
      modifies sender, receiver, surroundings, pduBuffer, modifiedPduBuffer
      ensures Valid()
      ensures View() == After(old(View()), SenderStep(surroundings.config, old(sender.View()), old(surroundings.View()), E32ReceivedResumeRequest, t))
      decreases 1, Left(), 0
    {
      hide SendLoop, FramesIn;
      if sender.isSuspended {
        TellSender(Resumed);
        sender.isSuspended := false;
      }
      IssueToItself(E1SendFileData);
    }

    method SenderThaws(t: Transaction)
      requires Valid() && sender.state == SendFile
      modifies sender, receiver, surroundings, pduBuffer, modifiedPduBuffer
      ensures Valid()
      ensures View() == After(old(View()), SenderStep(surroundings.config, old(sender.View()), old(surroundings.View()), E41ReceivedThaw, t))
      decreases 1, Left(), 0
    {
      hide SendLoop, FramesIn;
      if sender.isFrozen {
        sender.isFrozen := false;
        IssueToItself(E1SendFileData);
      }
    }

    method SenderInSendFile(e: Event, t: Transaction)
      requires Valid() && sender.state == SendFile
      modifies sender, receiver, surroundings, pduBuffer, modifiedPduBuffer
      ensures Valid()
      ensures View() == After(old(View()), SenderStep(surroundings.config, old(sender.View()), old(surroundings.View()), e, t))
      decreases Level(e), Left(), 1
    {
      hide SenderCancelled, SenderSuspended, SenderResumed, SendLoop, FramesIn;
      match e
      case E1SendFileData =>
        SenderSends(e, t);
      case E0EnteredState =>
        IssueToItself(E1SendFileData);
      case E2AbandonTransaction =>
        TellSender(Abandoned);
        sender.Shut();
      case E3NoticeOfCancellation =>
        SenderCancels();
      case E4NoticeOfSuspension =>
        SenderSuspends();
      case E31ReceivedSuspendRequest =>
        IssueToItself(E4NoticeOfSuspension);
      case E32ReceivedResumeRequest =>
        SenderResumes(t);
      case E33ReceivedCancelRequest =>
        sender.conditionCode := CancelRequestReceived;
        IssueToItself(E3NoticeOfCancellation);
      case E34ReceivedReportRequest =>
        TellSender(Report);
      case E40ReceivedFreeze =>
        sender.isFrozen := true;
      case E41ReceivedThaw =>
        SenderThaws(t);
      case _ =>
        IssueError(UnsupportedAction);
    }

    method SenderUpdateState(e: Event, t: Transaction)
      requires Valid() && t.source < UINT56 && t.seqNumber < UINT56 && t.destination < UINT56 && ListingFits(t)
      modifies sender, receiver, surroundings, pduBuffer, modifiedPduBuffer
      ensures Valid()
      ensures View() == After(old(View()), SenderStep(surroundings.config, old(sender.View()), old(surroundings.View()), e, t))
      decreases Level(e), Left(), 2
    {
      hide SendLoop, SenderPut, SenderCancelled, SenderSuspended, SenderResumed, FramesIn;
      if sender.state == SendMetadata {
        SenderInSendMetadata(e, t);
      } else if sender.state == SendFile {
        SenderInSendFile(e, t);
      }
    }

    method IssueRequest(id: TransactionId, e: Event)
      requires Valid() && Accompanied(e, None)
      modifies sender, receiver, surroundings, pduBuffer, modifiedPduBuffer
      ensures Valid() && View() == Protocol.IssueRequest(surroundings.config, old(View()), id, e)
      decreases Level(e), Left(), 3
    {
      hide SenderStep, FramesIn;
      if id == sender.transactionId {
        SenderUpdateState(e, sender.transaction);
      } else if id == receiver.transactionId {
        ReceiverUpdateState(e, receiver.transaction, None);
      }
    }

    // ---------- the receiver machine ----------

    method ReceiverFinishes()
      requires Valid()
      modifies receiver, surroundings
      ensures Valid() && View() == FinishReceiver(old(View()))
    {
      hide FramesIn;
      TellReceiver(TransactionFinished);
      receiver.state := Completed;
    }

    method ReceiverInit(t: Transaction)
      requires Valid()
      modifies receiver, surroundings
      ensures Valid() && View() == InitReceiver(old(View()), t)
    {
      receiver.transaction := t;
      receiver.transactionId := IdOf(t.source, t.seqNumber);
      receiver.conditionCode := NoError;
      receiver.receivedFileSize := 0;
      surroundings.Note(Started(TheReceiver, receiver.transactionId));
    }

    method ReceiverStores(offset: nat, data: seq<bv8>)
      requires Valid()
      modifies receiver, surroundings
      ensures Valid() && View() == StoreSegment(surroundings.config, old(View()), offset, data)
    {
      hide WriteAt, FramesIn;
      var ok := surroundings.WriteFile(receiver.transaction.destinationName, offset, data);
      if !ok {
        IssueError(FilestoreError);
        receiver.state := Completed;
        return;
      }
      if receiver.receivedFileSize < offset + |data| {
        receiver.receivedFileSize := (offset + |data|) % UINT32;
      }
    }

    method ReceiverDeletes()
      requires Valid()
      modifies receiver, surroundings
      ensures Valid() && View() == DeleteStoredFile(surroundings.config, old(View()))
    {
      hide FramesIn;
      var ok := surroundings.DeleteFile(receiver.transaction.destinationName);
      if !ok {
        IssueError(FilestoreError);
        receiver.state := Completed;
      }
    }

    method ReceiverGetsEof(checksum: nat, fileSize: nat)
      requires Valid()
      modifies sender, receiver, surroundings, pduBuffer, modifiedPduBuffer
      ensures Valid() && View() == ReceiveEof(surroundings.config, old(View()), checksum, fileSize)
      decreases 2, 0, 1
    {
      hide Protocol.RunFaultHandler, DeleteStoredFile, ChecksumOf, FramesIn;
      TellReceiver(EofReceived);
      if IsFileTransfer(receiver.transaction) {
        if receiver.receivedFileSize > fileSize {
          RunFaultHandler(receiver.transactionId, DefaultAction(FileSizeError));
          return;
        }
        var stored := GetChecksum(receiver.transaction.destinationName);
        if stored != checksum {
          RunFaultHandler(receiver.transactionId, DefaultAction(FileChecksumFailure));
          ReceiverDeletes();
          return;
        }
      }
      ReceiverFinishes();
    }

    method RunFaultHandler(id: TransactionId, action: FaultAction)
      requires Valid()
      modifies sender, receiver, surroundings, pduBuffer, modifiedPduBuffer
      ensures Valid() && View() == Protocol.RunFaultHandler(surroundings.config, old(View()), id, action)
      decreases 2, 0, 0
    {
      hide Protocol.IssueRequest, FramesIn;
      match action
      case CancelAction => IssueRequest(id, E33ReceivedCancelRequest);
      case SuspendAction => IssueRequest(id, E31ReceivedSuspendRequest);
      case IgnoreAction =>
      case AbandonAction => IssueRequest(id, E2AbandonTransaction);
    }

    /** The PDU is there whenever the event needs one. */
    method ReceiverUpdateState(e: Event, t: Transaction, p: Option<Payload>)
      requires Valid() && Accompanied(e, p)
      modifies sender, receiver, surroundings, pduBuffer, modifiedPduBuffer
      ensures Valid() && View() == ReceiverStep(surroundings.config, old(View()), e, t, p)
      decreases Level(e), Left(), 2
    {
      hide FramesIn, ReceiveEof, StoreSegment, Protocol.RunFaultHandler, Protocol.IssueRequest;
      if receiver.state == WaitForMd {
        ReceiverInWaitForMd(e, t, p);
      } else if receiver.state == WaitForEof {
        ReceiverInWaitForEof(e, t, p);
      }
    }

    method ReceiverInWaitForMd(e: Event, t: Transaction, p: Option<Payload>)
      requires Valid() && Accompanied(e, p) && receiver.state == WaitForMd
      modifies sender, receiver, surroundings, pduBuffer, modifiedPduBuffer
      ensures Valid() && View() == ReceiverStep(surroundings.config, old(View()), e, t, p)
      decreases Level(e), Left(), 1
    {
      hide FramesIn, Protocol.RunFaultHandler, Protocol.IssueRequest;
      match e
      case E0EnteredState =>
        ReceiverInit(t);
      case E2AbandonTransaction =>
        TellReceiver(Abandoned);
        receiver.state := Completed;
      case E3NoticeOfCancellation =>
        ReceiverFinishes();
      case E10ReceivedMetadata =>
        TellReceiver(MetadataReceived);
        receiver.state := WaitForEof;
      case E12ReceivedEofNoError =>
        ReceiverFinishes();
      case E13ReceivedEofCancel =>
        assert p.Some?;
        receiver.conditionCode := p.value.condition;
        ReceiverFinishes();
      case E27InactivityTimeout =>
        RunFaultHandler(receiver.transactionId, DefaultAction(InactivityDetected));
      case E33ReceivedCancelRequest =>
        receiver.conditionCode := CancelRequestReceived;
        IssueRequest(receiver.transactionId, E3NoticeOfCancellation);
      case E34ReceivedReportRequest =>
        TellReceiver(Report);
      case _ =>
        IssueError(UnsupportedAction);
    }

    method ReceiverInWaitForEof(e: Event, t: Transaction, p: Option<Payload>)
      requires Valid() && Accompanied(e, p) && receiver.state == WaitForEof
      modifies sender, receiver, surroundings, pduBuffer, modifiedPduBuffer
      ensures Valid() && View() == ReceiverStep(surroundings.config, old(View()), e, t, p)
      decreases Level(e), Left(), 1
    {
      hide FramesIn, ReceiveEof, StoreSegment, Protocol.RunFaultHandler, Protocol.IssueRequest;
      match e
      case E2AbandonTransaction =>
        TellReceiver(Abandoned);
        receiver.state := Completed;
      case E3NoticeOfCancellation =>
        ReceiverFinishes();
      case E13ReceivedEofCancel =>
        assert p.Some?;
        receiver.conditionCode := p.value.condition;
        ReceiverFinishes();
      case E27InactivityTimeout =>
        RunFaultHandler(receiver.transactionId, DefaultAction(InactivityDetected));
      case E33ReceivedCancelRequest =>
        receiver.conditionCode := CancelRequestReceived;
        IssueRequest(receiver.transactionId, E3NoticeOfCancellation);
      case E34ReceivedReportRequest =>
        TellReceiver(Report);
      case E11ReceivedFileData =>
        assert p.Some?;
        TellReceiver(FileSegmentReceived);
        if IsFileTransfer(receiver.transaction) {
          ReceiverStores(p.value.offset, p.value.data);
        }
      case E12ReceivedEofNoError =>
        assert p.Some?;
        ReceiverGetsEof(p.value.checksum, p.value.fileSize);
      case _ =>
        IssueError(UnsupportedAction);
    }

    // ---------- public calls ----------

    method Put(destination: nat, sourceName: Name, destinationName: Name) returns (id: TransactionId)
      requires Valid() && destination < UINT32
      modifies this, sender, receiver, surroundings, pduBuffer, modifiedPduBuffer
      ensures Valid() && View() == Step(surroundings.config, old(View()), CallPut(destination, sourceName, destinationName))
      ensures id == TransactionId(entityId, transactionSequenceNumber)
    {
      hide SenderStep, ClippedName, FramesIn;
      transactionSequenceNumber := (transactionSequenceNumber + 1) % UINT32;
      var t := Transaction(entityId, transactionSequenceNumber, destination, ClippedName(sourceName), ClippedName(destinationName), 0, 0);
      sender.state := SendMetadata;
      SenderUpdateState(E0EnteredState, t);
      SenderUpdateState(E30ReceivedPutRequest, t);
      id := TransactionId(entityId, transactionSequenceNumber);
    }

    method Cancel(id: TransactionId)
      requires Valid()
      modifies sender, receiver, surroundings, pduBuffer, modifiedPduBuffer
      ensures Valid() && View() == Step(surroundings.config, old(View()), CallCancel(id))
    {
      hide Protocol.IssueRequest, FramesIn;
      IssueRequest(id, E33ReceivedCancelRequest);
    }

    method Suspend(id: TransactionId)
      requires Valid()
      modifies sender, receiver, surroundings, pduBuffer, modifiedPduBuffer
      ensures Valid() && View() == Step(surroundings.config, old(View()), CallSuspend(id))
    {
      hide Protocol.IssueRequest, FramesIn;
      IssueRequest(id, E31ReceivedSuspendRequest);
    }

    method Resume(id: TransactionId)
      requires Valid()
      modifies sender, receiver, surroundings, pduBuffer, modifiedPduBuffer
      ensures Valid() && View() == Step(surroundings.config, old(View()), CallResume(id))
    {
      hide Protocol.IssueRequest, FramesIn;
      IssueRequest(id, E32ReceivedResumeRequest);
    }

    method ReportOn(id: TransactionId)
      requires Valid()
      modifies sender, receiver, surroundings, pduBuffer, modifiedPduBuffer
      ensures Valid() && View() == Step(surroundings.config, old(View()), CallReport(id))
    {
      hide Protocol.IssueRequest, FramesIn;
      IssueRequest(id, E34ReceivedReportRequest);
    }

    method LinkState(destination: nat, e: Event)
      requires Valid() && (e.E40ReceivedFreeze? || e.E41ReceivedThaw?)
      modifies sender, receiver, surroundings, pduBuffer, modifiedPduBuffer
      ensures Valid() && View() == Protocol.LinkState(surroundings.config, old(View()), destination, e)
    {
      hide SenderStep, FramesIn;
      if sender.transaction.destination == destination {
        SenderUpdateState(e, sender.transaction);
      }
    }

    method Freeze(destination: nat)
      requires Valid()
      modifies sender, receiver, surroundings, pduBuffer, modifiedPduBuffer
      ensures Valid() && View() == Step(surroundings.config, old(View()), CallFreeze(destination))
    {
      hide Protocol.LinkState, FramesIn;
      LinkState(destination, E40ReceivedFreeze);
    }

    method Thaw(destination: nat)
      requires Valid()
      modifies sender, receiver, surroundings, pduBuffer, modifiedPduBuffer
      ensures Valid() && View() == Step(surroundings.config, old(View()), CallThaw(destination))
    {
      hide Protocol.LinkState, FramesIn;
      LinkState(destination, E41ReceivedThaw);
    }

    method TransportIsReady()
      requires Valid()
      modifies sender, receiver, surroundings, pduBuffer, modifiedPduBuffer
      ensures Valid() && View() == Step(surroundings.config, old(View()), CallTransportReady)
    {
      hide Protocol.IssueRequest, FramesIn;
      IssueRequest(sender.transactionId, E1SendFileData);
    }

    method TimerExpired()
      requires Valid()
      modifies sender, receiver, surroundings, pduBuffer, modifiedPduBuffer
      ensures Valid() && View() == Step(surroundings.config, old(View()), CallTimerExpired)
    {
      hide Protocol.IssueRequest, FramesIn;
      IssueRequest(receiver.transactionId, E27InactivityTimeout);
    }

    method DeliverToReceiver(p: Payload)
      requires Valid()
      modifies sender, receiver, surroundings, pduBuffer, modifiedPduBuffer
      ensures Valid() && View() == Protocol.DeliverToReceiver(surroundings.config, old(View()), p)
    {
      hide ReceiverStep, FramesIn;
      if p.Ack? {
        IssueError(UnsupportedAction);
      }
      ReceiverUpdateState(EventOf(p), receiver.transaction, Some(p));
    }

    method HandleNewReceiver(p: Pdu)
      requires Valid() && IsConstraintValid(p)
      modifies sender, receiver, surroundings, pduBuffer, modifiedPduBuffer
      ensures Valid() && View() == NewReceiver(surroundings.config, old(View()), p)
    {
      hide Protocol.DeliverToReceiver, ReceiverStep, ValueOf, UpToZero, FramesIn;
      if p.header.direction.TowardSender? {
        IssueError(UnsupportedAction);
        return;
      }
      if !p.payload.Metadata? && !p.payload.Eof? && !p.payload.FileData? {
        IssueError(UnsupportedAction);
        return;
      }
      var h := p.header;
      var source := BytesToULong(h.source, |h.source|);
      var seqNumber := BytesToULong(h.seqNumber, |h.seqNumber|);
      var destination := BytesToULong(h.destination, |h.destination|);
      assert h.source[..|h.source|] == h.source && h.seqNumber[..|h.seqNumber|] == h.seqNumber && h.destination[..|h.destination|] == h.destination;
      var t := Transaction(source, seqNumber, destination, [], [], 0, 0);
      if p.payload.Metadata? {
        t := t.(sourceName := UpToZero(p.payload.sourceName), destinationName := UpToZero(p.payload.destinationName), fileSize := p.payload.size);
      }
      receiver.state := WaitForMd;
      ReceiverUpdateState(E0EnteredState, t, None);
      DeliverToReceiver(p.payload);
    }

    /** The PDU of a received byte string: None if it does not decode. */
    method DecodeReceived(buf: array<bv8>, count: nat) returns (pdu: Option<Pdu>)
      requires buf.Length >= 34 && count + 3 <= buf.Length && count < UINT32
      modifies buf
      ensures pdu == Unframe(old(buf[..]), count)
      ensures pdu.Some? ==> IsConstraintValid(pdu.value)
    {
      hide Insert, DecodePdu, BitsOf;
      var newCount := InsertDeterminant(buf, count);
      var bitStream := new BitStream.AttachBuffer(buf, newCount);
      BitsAre(bitStream);
      assert buf[..newCount] == buf[..][..newCount];
      var r := DecodePduStream(bitStream);
      if r.Failed? {
        return None;
      }
      var p := r.value;
      if p.payload.FileData? && |p.payload.data| > 0 && newCount > 0 {
        p := p.(payload := p.payload.(data := p.payload.data[|p.payload.data| - 1 := buf[newCount - 1]]));
      }
      pdu := Some(p);
    }

    /** Bytes arrive: the buffer must have room for the determinant and one byte of reading ahead. */
    method ReceivedPdu(buf: array<bv8>, count: nat)
      requires Valid() && buf.Length >= 34 && count + 3 <= buf.Length && count < UINT32
      requires buf != pduBuffer && buf != modifiedPduBuffer
      modifies buf, sender, receiver, surroundings, pduBuffer, modifiedPduBuffer
      ensures Valid() && View() == Step(surroundings.config, old(View()), CallReceived(Unframe(old(buf[..]), count)))
    {
      hide SenderStep, Protocol.DeliverToReceiver, NewReceiver, Unframe, ValueOf, FramesIn;
      var pdu := DecodeReceived(buf, count);
      if pdu.None? {
        IssueError(Asn1sccError);
        return;
      }
      var p := pdu.value;
      if p.header.mode.Acknowledged? {
        IssueError(UnsupportedAction);
        return;
      }
      var source := BytesToULong(p.header.source, |p.header.source|);
      var seqNumber := BytesToULong(p.header.seqNumber, |p.header.seqNumber|);
      assert p.header.source[..|p.header.source|] == p.header.source && p.header.seqNumber[..|p.header.seqNumber|] == p.header.seqNumber;
      var id := IdOf(source, seqNumber);
      if id == sender.transactionId && sender.state != Completed {
        if p.payload.Ack? {
          IssueError(UnsupportedAction);
        }
        SenderUpdateState(EventOf(p.payload), sender.transaction);
      } else if id == receiver.transactionId && receiver.state != Completed {
        DeliverToReceiver(p.payload);
      } else {
        HandleNewReceiver(p);
      }
    }
  }

  function After(k: Core, r: (Sender, World)): Core { k.(sender := r.0, w := r.1) }

  /** How deep a machine's own requests can nest below an event. */
  function Level(e: Event): nat {
    match e
    case E0EnteredState => 1
    case E31ReceivedSuspendRequest => 1
    case E32ReceivedResumeRequest => 1
    case E33ReceivedCancelRequest => 1
    case E41ReceivedThaw => 1
    case E30ReceivedPutRequest => 2
    case E12ReceivedEofNoError => 3
    case E27InactivityTimeout => 3
    case _ => 0
  }

  lemma EofKeepsIds(c: Config, s: Sender, w: World)
    ensures TransmitEof(c, s, w).s == s.(transaction := Sized(c, s.transaction, w))
  {}

  lemma MetadataKeepsIds(c: Config, s: Sender, w: World)
    ensures TransmitMetadata(c, s, w).s == s.(transaction := Sized(c, s.transaction, w))
  {}

  lemma StripRoom(p: Pdu)
    requires Encodable(p) && p.payload.FileData?
    ensures |p.payload.data| + 5 <= |EncodedBytes(p)|
    ensures Frame(p) == Strip(EncodedBytes(p), |p.payload.data|)
  {
    hide EncodedBytes, Strip;
    FrameSize(p);
  }

  lemma SenderKept(c: Config, s: Sender, w: World, p: Pdu)
    ensures Transmit(c, s, w, p).s == s
  {}

  /** The written bytes of a stream that holds one PDU */
  lemma EncodedInBuffer(p: Pdu, s: BitStream)
    requires Encodable(p) && s.Valid() && s.Written() == [] + PduBits(p)
    ensures s.currentByte == |EncodedBytes(p)| <= s.buf.Length && s.buf[..s.currentByte] == EncodedBytes(p)
  {
    hide PduBits, BitsOf, EncodedBytes;
    EncodedBytesBits(p);
    FrameSize(p);
    PduBitsWhole(p);
    WrittenBytes(s);
    BitsOfIsInjective(s.buf[..s.currentByte], EncodedBytes(p));
  }
}

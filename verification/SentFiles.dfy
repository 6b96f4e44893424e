/** What the sender sends of a file: the PDUs of a transfer, what of them is sent in a run with any
    interruptions, and that an uninterrupted put sends them all. */
module SentFiles {
  import opened CStrings
  import opened Identifiers
  import opened Integers
  import opened Pdus
  import opened Protocol
  import opened SenderRuns
  import Checksums

  // ---------- segments ----------

  lemma SegmentBounds(n: nat, i: nat)
    ensures i < SegmentCount(n) <==> SEGMENT * i < n
    ensures n <= SEGMENT * SegmentCount(n)
  {}

  function SegmentTo(n: nat, i: nat): (r: nat)
    ensures r <= n && r <= SEGMENT * i
  {
    if SEGMENT * i <= n then SEGMENT * i else n
  }

  function SegmentOf(file: seq<bv8>, i: nat): (r: seq<bv8>)
    requires i < SegmentCount(|file|)
    ensures 0 < |r| <= SEGMENT && |r| == SegmentTo(|file|, i + 1) - SEGMENT * i
  {
    SegmentBounds(|file|, i);
    file[SEGMENT * i..SegmentTo(|file|, i + 1)]
  }

  function SegmentPdu(h: Header, file: seq<bv8>, i: nat): Pdu
    requires i < SegmentCount(|file|)
  {
    Pdu(h, FileData(SEGMENT * i, Copied(SegmentOf(file, i))))
  }

  // ---------- the PDUs of a transfer ----------

  /** Metadata and the first m segments. */
  function Plan(c: Config, t: Transaction, file: seq<bv8>, m: nat): (r: seq<Pdu>)
    requires m <= SegmentCount(|file|)
    ensures |r| == m + 1
    ensures r[0] == MetadataPdu(c, t, |file|)
    ensures forall i | 0 <= i < m :: r[i + 1] == SegmentPdu(HeaderOf(t), file, i)
  {
    seq(m + 1, i requires 0 <= i <= m => if i == 0 then MetadataPdu(c, t, |file|) else SegmentPdu(HeaderOf(t), file, i - 1))
  }

  /** Metadata, the segments in order, and an EOF that reports no error. */
  function TransferPdus(c: Config, t: Transaction, file: seq<bv8>, checksum: nat): (r: seq<Pdu>)
    ensures |r| == SegmentCount(|file|) + 2
  {
    Plan(c, t, file, SegmentCount(|file|)) + [EofPdu(HeaderOf(t), NoError, checksum, |file|)]
  }

  /** An EOF with the checksum and size of the file; word is what the unfilled buffer held. */
  predicate IsEofOf(c: Config, t: Transaction, file: seq<bv8>, e: Pdu, word: Word) {
    && e.payload.Eof?
    && e == EofPdu(HeaderOf(t), e.payload.condition, SourceSum(c, t.sourceName, file, word), |file|)
  }

  lemma NextSegment(c: Config, t: Transaction, file: seq<bv8>, m: nat)
    requires m < SegmentCount(|file|)
    ensures Plan(c, t, file, m) + [SegmentPdu(HeaderOf(t), file, m)] == Plan(c, t, file, m + 1)
  {
    hide SegmentOf, Copied, HeaderOf;
  }

  // ---------- runs with interruptions ----------

  /** Identifiers that one header can carry. */
  predicate ValidIds(h: Header) {
    && 1 <= |h.source| <= 7 && 1 <= |h.seqNumber| <= 7 && |h.destination| == |h.source|
    && h.version <= 7
  }

  /** What was sent in a transaction is a part of the transfer: nothing, or Metadata and the first
      segments, perhaps with an EOF behind them that reports no error only after the last segment. */
  ghost predicate IsPartOf(c: Config, t: Transaction, file: seq<bv8>, sent: seq<Pdu>) {
    && (sent != [] ==> ValidIds(HeaderOf(t)))
    && (|| sent == []
        || IsBegun(c, t, file, sent)
        || (IsBegun(c, t, file, sent[..|sent| - 1]) && IsClosing(c, t, file, sent[|sent| - 1], |sent| - 2)))
  }

  predicate IsBegun(c: Config, t: Transaction, file: seq<bv8>, sent: seq<Pdu>) {
    0 < |sent| <= SegmentCount(|file|) + 1 && sent == Plan(c, t, file, |sent| - 1)
  }

  ghost predicate IsClosing(c: Config, t: Transaction, file: seq<bv8>, e: Pdu, m: nat) {
    (exists word: Word :: IsEofOf(c, t, file, e, word)) && (IsComplete(e) ==> m == SegmentCount(|file|))
  }

  function At(t: Transaction, file: seq<bv8>, m: nat): Transaction {
    t.(fileSize := |file|, filePosition := SegmentTo(|file|, m))
  }

  /** The sender's machine and what the log says it sent agree with the transfer. */
  ghost predicate OnTrack(c: Config, t: Transaction, file: seq<bv8>, s: Sender, log: seq<Effect>) {
    var sent := SentSince(log);
    && (s.state == SendFile || s.state == Completed)
    && IsPartOf(c, t, file, sent)
    && (s.state == SendFile ==>
        IsBegun(c, t, file, sent) && s.transaction == At(t, file, |sent| - 1) && s.condition.NoError?)
  }

  lemma TransmitSends(c: Config, s: Sender, w: World, p: Pdu)
    ensures var a := Transmit(c, s, w, p);
      && a.s == s && (a.ok ==> Encodable(p))
      && SentSince(a.w.log) == if a.ok then SentSince(w.log) + [p] else SentSince(w.log)
  {
    hide SentSince, Encodable;
    SenderRuns.Emitted(w, Error(Asn1sccError)); SenderRuns.Emitted(Tick(w), Error(TransportError)); SenderRuns.Emitted(Tick(w), Sent(p));
  }

  lemma EncodableIds(p: Pdu)
    requires Encodable(p)
    ensures ValidIds(p.header)
  {}

  lemma TellSends(s: Sender, w: World, i: Indication)
    ensures SentSince(Tell(s, w, i).log) == SentSince(w.log)
  {
    SenderRuns.Emitted(w, Indicated(TheSender, i, s.id));
  }

  lemma OneMoreSegment(c: Config, t: Transaction, file: seq<bv8>, sent: seq<Pdu>)
    requires IsBegun(c, t, file, sent) && |sent| - 1 < SegmentCount(|file|) && ValidIds(HeaderOf(t))
    ensures var more := sent + [SegmentPdu(HeaderOf(t), file, |sent| - 1)];
      IsBegun(c, t, file, more) && IsPartOf(c, t, file, more)
  {
    hide SegmentPdu, Plan, HeaderOf;
    NextSegment(c, t, file, |sent| - 1);
  }

  lemma OneEof(c: Config, t: Transaction, file: seq<bv8>, sent: seq<Pdu>, e: Pdu, word: Word)
    requires IsBegun(c, t, file, sent) && IsEofOf(c, t, file, e, word) && ValidIds(HeaderOf(t))
    requires IsComplete(e) ==> |sent| - 1 == SegmentCount(|file|)
    ensures IsPartOf(c, t, file, sent + [e])
  {
    hide Plan, HeaderOf, SourceSum, IsEofOf;
    assert (sent + [e])[..|sent|] == sent;
  }

  /** The file that a transaction sends, for the time being. */
  predicate Sends(c: Config, t: Transaction, file: seq<bv8>, w: World) {
    IsFileTransfer(t) && SourceFile(c, w.files, t.sourceName) == file && |file| < UINT32
  }

  lemma SegmentOnTrack(c: Config, t: Transaction, file: seq<bv8>, s: Sender, w: World)
    requires OnTrack(c, t, file, s, w.log) && s.state == SendFile && Sends(c, t, file, w) && !IsSendComplete(s.transaction)
    ensures var a := TransmitFileData(c, s, w);
      && a.w.files == w.files
      && if a.ok then OnTrack(c, t, file, a.s, a.w.log) && a.s.state == SendFile else OnTrack(c, t, file, Close(a.s), a.w.log)
  {
    hide SentSince, Encodable, IsPartOf, IsBegun, Transmit, Copied, MinimalBytes;
    var m, n := |SentSince(w.log)| - 1, SegmentLength(s.transaction);
    BegunBound(c, t, file, SentSince(w.log));
    SegmentBounds(|file|, m);
    SameHeader(t, s.transaction);
    assert s.transaction.filePosition == SEGMENT * m && SEGMENT * m + n == SegmentTo(|file|, m + 1);
    SenderRuns.Emitted(Tick(w), Error(FilestoreError));
    if t.sourceName == LISTING_NAME || c.answers(w.clock) {
      var p := SegmentPdu(HeaderOf(t), file, m);
      var s1 := s.(transaction := s.transaction.(filePosition := SEGMENT * m + n));
      TransmitSends(c, s1, Tick(w), p);
      TransmitKeepsFiles(c, s1, Tick(w), p);
      StillValid(c, t, file, SentSince(w.log));
      OneMoreSegment(c, t, file, SentSince(w.log));
    }
  }

  lemma BegunBound(c: Config, t: Transaction, file: seq<bv8>, sent: seq<Pdu>)
    requires IsBegun(c, t, file, sent)
    ensures 0 < |sent| <= SegmentCount(|file|) + 1
  {}

  lemma StillValid(c: Config, t: Transaction, file: seq<bv8>, sent: seq<Pdu>)
    requires IsPartOf(c, t, file, sent) && sent != []
    ensures ValidIds(HeaderOf(t))
  {}

  lemma TransmitKeepsFiles(c: Config, s: Sender, w: World, p: Pdu)
    ensures Transmit(c, s, w, p).w.files == w.files
  {}

  /** The EOF, after the last segment or a cancellation. */
  lemma EofOnTrack(c: Config, t: Transaction, file: seq<bv8>, s: Sender, w: World)
    requires OnTrack(c, t, file, s.(condition := NoError), w.log) && s.state == SendFile && Sends(c, t, file, w)
    requires s.condition.NoError? ==> IsSendComplete(s.transaction)
    ensures var a := TransmitEof(c, s, w);
      && a.w.files == w.files
      && OnTrack(c, t, file, Close(a.s), a.w.log)
  {
    hide SentSince, Encodable, IsPartOf, IsBegun, Transmit, MinimalBytes, SourceSum;
    var sent, e := SentSince(w.log), EofOf(c, s, w);
    BegunBound(c, t, file, sent);
    SegmentBounds(|file|, |sent| - 1);
    SameHeader(t, s.transaction);
    var s1 := s.(transaction := Sized(c, s.transaction, w));
    TransmitSends(c, s1, Tick(w), e);
    TransmitKeepsFiles(c, s1, Tick(w), e);
    StillValid(c, t, file, sent);
    assert IsEofOf(c, t, file, e, c.stale(w.clock));
    OneEof(c, t, file, sent, e, c.stale(w.clock));
  }

  /** Whatever the user is told, nothing more is sent. */
  lemma TellOnTrack(c: Config, t: Transaction, file: seq<bv8>, s: Sender, s0: Sender, w: World, i: Indication)
    requires OnTrack(c, t, file, s, w.log)
    ensures OnTrack(c, t, file, s, Tell(s0, w, i).log)
  {
    hide SentSince, IsPartOf, IsBegun;
    TellSends(s0, w, i);
  }

  lemma {:induction false} LoopOnTrack(c: Config, t: Transaction, file: seq<bv8>, s: Sender, w: World)
    requires OnTrack(c, t, file, s, w.log) && s.state == SendFile && Sends(c, t, file, w)
    ensures var (s', w') := SendLoop(c, s, w); OnTrack(c, t, file, s', w'.log)
    decreases if IsSendComplete(s.transaction) then 0 else s.transaction.fileSize - s.transaction.filePosition
  {
    hide SentSince, IsPartOf, IsBegun, TransmitEof, TransmitFileData, At;
    if !IsPaused(s) && c.answers(w.clock) {
      if IsSendComplete(s.transaction) {
        SameCondition(s);
        EofOnTrack(c, t, file, s, Tick(w));
        var a := TransmitEof(c, s, Tick(w));
        TellOnTrack(c, t, file, Close(a.s), s, a.w, EofSent);
        TellOnTrack(c, t, file, Close(a.s), s, Tell(s, a.w, EofSent), TransactionFinished);
      } else {
        SegmentOnTrack(c, t, file, s, Tick(w));
        FileDataAdvances(c, s, Tick(w));
        var a := TransmitFileData(c, s, Tick(w));
        if a.ok { LoopOnTrack(c, t, file, a.s, a.w); }
      }
    }
  }

  lemma SameCondition(s: Sender)
    ensures s.condition.NoError? ==> s.(condition := NoError) == s
  {}

  lemma CancelledOnTrack(c: Config, t: Transaction, file: seq<bv8>, s: Sender, w: World)
    requires OnTrack(c, t, file, s.(condition := NoError), w.log) && s.state == SendFile && Sends(c, t, file, w) && !s.condition.NoError?
    ensures var (s', w') := SenderCancelled(c, s, w); OnTrack(c, t, file, s', w'.log)
  {
    hide SentSince, IsPartOf, IsBegun, TransmitEof;
    EofOnTrack(c, t, file, s, w);
    var a := TransmitEof(c, s, w);
    TellOnTrack(c, t, file, Close(a.s), s, a.w, TransactionFinished);
  }

  /** Every event but a new put keeps the sender on track while its file stays. */
  lemma EventOnTrack(c: Config, t: Transaction, file: seq<bv8>, s: Sender, w: World, e: Event, u: Transaction)
    requires OnTrack(c, t, file, s, w.log) && Sends(c, t, file, w) && !e.E3NoticeOfCancellation?
    ensures var (s', w') := SenderStep(c, s, w, e, u); OnTrack(c, t, file, s', w'.log)
  {
    hide SentSince, IsPartOf, IsBegun, SendLoop, SenderCancelled;
    if s.state == SendFile {
      SenderRuns.Emitted(w, Error(UnsupportedAction));
      TellOnTrack(c, t, file, s, s, w, Report); TellOnTrack(c, t, file, s, s, w, Abandoned);
      TellOnTrack(c, t, file, s, s, w, Suspended); TellOnTrack(c, t, file, s, s, w, Resumed);
      LoopOnTrack(c, t, file, s, w);
      LoopOnTrack(c, t, file, s.(isFrozen := false), w);
      LoopOnTrack(c, t, file, s.(isSuspended := false), Tell(s, w, Resumed));
      if e.E33ReceivedCancelRequest? {
        SameCondition(s);
        CancelledOnTrack(c, t, file, s.(condition := CancelRequestReceived), w);
      }
    }
  }

  lemma StepOnTrack(c: Config, t: Transaction, file: seq<bv8>, k: Core, call: Call)
    requires OnTrack(c, t, file, k.sender, k.w.log) && Sends(c, t, file, k.w) && !call.CallPut?
    ensures var k' := Step(c, k, call); OnTrack(c, t, file, k'.sender, k'.w.log)
  {
    hide SentSince, TerminalsSince, ToldSuspended, Paced, ProgressIn, IsPartOf, IsBegun, Step, SenderStep;
    var share := CallShare(c, k, call);
    if share.Touched? { EventOnTrack(c, t, file, k.sender, share.w, share.e, k.sender.transaction); }
  }

  // ---------- the put that starts it ----------

  /** The transaction that the next put of an entity starts. */
  function NextTransaction(c: Config, k: Core, destination: nat, sourceName: Name, destinationName: Name): Transaction {
    Transaction(c.entityId, (k.seqNumber + 1) % UINT32, destination, ClippedName(sourceName), ClippedName(destinationName), 0, 0)
  }

  lemma MetadataOnTrack(c: Config, t: Transaction, file: seq<bv8>, s: Sender, w: World)
    requires s.transaction == t && s.condition.NoError? && t.filePosition == 0 && Sends(c, t, file, w) && SentSince(w.log) == []
    ensures var a := TransmitMetadata(c, s, w);
      && a.w.files == w.files && a.s.transaction == t.(fileSize := |file|)
      && if a.ok then OnTrack(c, t, file, a.s.(state := SendFile), a.w.log) else OnTrack(c, t, file, Close(a.s), a.w.log)
  {
    hide SentSince, Encodable, Transmit, MinimalBytes;
    var p, s1 := MetadataOf(c, t, w), s.(transaction := Sized(c, t, w));
    TransmitSends(c, s1, w, p);
    TransmitKeepsFiles(c, s1, w, p);
    if TransmitMetadata(c, s, w).ok {
      EncodableIds(p);
      assert [p] == Plan(c, t, file, 0);
    }
  }

  lemma SenderPutOnTrack(c: Config, t: Transaction, file: seq<bv8>, s: Sender, w: World)
    requires s.transaction == t && s.condition.NoError? && t.filePosition == 0 && Sends(c, t, file, w) && SentSince(w.log) == []
    ensures var (s', w') := SenderPut(c, s, w); OnTrack(c, t, file, s', w'.log)
  {
    hide SentSince, OnTrack, TransmitMetadata, SendLoop;
    var w1 := Tell(s, w, TransactionStarted);
    TellSends(s, w, TransactionStarted);
    MetadataOnTrack(c, t, file, s, w1);
    var a := TransmitMetadata(c, s, w1);
    if a.ok { LoopOnTrack(c, t, file, a.s.(state := SendFile), a.w); }
  }

  lemma PutOnTrack(c: Config, k: Core, destination: nat, sourceName: Name, destinationName: Name, file: seq<bv8>)
    requires Sends(c, NextTransaction(c, k, destination, sourceName, destinationName), file, k.w)
    ensures var k' := Put(c, k, destination, sourceName, destinationName);
      OnTrack(c, NextTransaction(c, k, destination, sourceName, destinationName), file, k'.sender, k'.w.log)
  {
    hide SentSince, OnTrack, SenderPut, ClippedName;
    var t := NextTransaction(c, k, destination, sourceName, destinationName);
    var s := InitSender(k.sender, t);
    SenderRuns.Emitted(k.w, Started(TheSender, s.id));
    SenderPutOnTrack(c, t, file, s, Emit(k.w, Started(TheSender, s.id)));
  }

  /** The source file stays what it is in the course of a run. */
  predicate FileStays(c: Config, k: Core, calls: seq<Call>, t: Transaction, file: seq<bv8>) {
    Sends(c, t, file, Run(c, k, calls).w) && (calls != [] ==> FileStays(c, k, calls[..|calls| - 1], t, file))
  }

  predicate NoPut(calls: seq<Call>) { forall i | 0 <= i < |calls| :: !calls[i].CallPut? }

  /** However a transfer is suspended, resumed, frozen, thawed, cancelled or found not ready: while its file
      stays, what has been sent since the put is a part of the transfer's PDUs, in their order. */
  lemma {:induction false} InterruptedTransfer(c: Config, k: Core, destination: nat, sourceName: Name, destinationName: Name, file: seq<bv8>, calls: seq<Call>)
    requires var t := NextTransaction(c, k, destination, sourceName, destinationName);
      Sends(c, t, file, k.w) && FileStays(c, Put(c, k, destination, sourceName, destinationName), calls, t, file)
    requires NoPut(calls)
    ensures var t := NextTransaction(c, k, destination, sourceName, destinationName);
      var k' := Run(c, Put(c, k, destination, sourceName, destinationName), calls);
      OnTrack(c, t, file, k'.sender, k'.w.log) && IsPartOf(c, t, file, SentSince(k'.w.log))
  {
    hide SentSince, OnTrack, IsPartOf, Put, Step, Sends;
    var t, k1 := NextTransaction(c, k, destination, sourceName, destinationName), Put(c, k, destination, sourceName, destinationName);
    if calls == [] {
      PutOnTrack(c, k, destination, sourceName, destinationName, file);
    } else {
      InterruptedTransfer(c, k, destination, sourceName, destinationName, file, calls[..|calls| - 1]);
      StepOnTrack(c, t, file, Run(c, k1, calls[..|calls| - 1]), calls[|calls| - 1]);
    }
    OnTrackIsPart(c, t, file, Run(c, k1, calls).sender, Run(c, k1, calls).w.log);
  }

  lemma OnTrackIsPart(c: Config, t: Transaction, file: seq<bv8>, s: Sender, log: seq<Effect>)
    requires OnTrack(c, t, file, s, log)
    ensures IsPartOf(c, t, file, SentSince(log))
  {}

  /** Once an EOF reports no error, all PDUs of the transfer have been sent. */
  lemma CompleteTransfer(c: Config, t: Transaction, file: seq<bv8>, sent: seq<Pdu>) returns (word: Word)
    requires IsPartOf(c, t, file, sent) && sent != [] && IsComplete(sent[|sent| - 1])
    ensures sent == TransferPdus(c, t, file, SourceSum(c, t.sourceName, file, word)) && ValidIds(HeaderOf(t))
  {
    hide SegmentOf, Copied, HeaderOf, SourceSum;
    var n := |sent| - 1;
    assert IsBegun(c, t, file, sent[..n]) && IsClosing(c, t, file, sent[n], n - 1);
    word :| IsEofOf(c, t, file, sent[n], word);
    assert sent == sent[..n] + [sent[n]];
  }

  // ---------- an uninterrupted put ----------

  /** From the given request on, the surroundings agree to everything. */
  ghost predicate Willing(c: Config, clock: nat) { forall n | n >= clock :: c.answers(n) }

  function AllSent(pdus: seq<Pdu>): (r: seq<Effect>)
    ensures |r| == |pdus| && forall i | 0 <= i < |r| :: r[i] == Sent(pdus[i])
  {
    seq(|pdus|, i requires 0 <= i < |pdus| => Sent(pdus[i]))
  }

  /** The segments from the i-th on. */
  function SegmentPdus(h: Header, file: seq<bv8>, i: nat): (r: seq<Pdu>)
    requires i <= SegmentCount(|file|)
    ensures |r| == SegmentCount(|file|) - i
    ensures forall j | 0 <= j < |r| :: r[j] == SegmentPdu(h, file, i + j)
  {
    seq(SegmentCount(|file|) - i, j requires 0 <= j < SegmentCount(|file|) - i => SegmentPdu(h, file, i + j))
  }

  lemma SumBound(c: Config, name: Name, file: seq<bv8>, word: Word)
    ensures SourceSum(c, name, file, word) < UINT32
  {
    hide Checksums.AccumulatedSum, Checksums.WordSum;
  }

  ghost predicate Ready(c: Config, s: Sender, w: World, file: seq<bv8>) {
    && s.state == SendFile && !IsPaused(s) && Willing(c, w.clock) && ValidIds(HeaderOf(s.transaction))
    && Sends(c, s.transaction, file, w) && s.transaction.fileSize == |file|
  }

  function AtSegment(s: Sender, file: seq<bv8>, i: nat): Sender {
    s.(transaction := s.transaction.(filePosition := SegmentTo(|file|, i)))
  }

  lemma SegmentEncodable(h: Header, file: seq<bv8>, i: nat)
    requires ValidIds(h) && |file| < UINT32 && i < SegmentCount(|file|)
    ensures Encodable(SegmentPdu(h, file, i))
  {
    SegmentBounds(|file|, i);
    CopiedLength(SegmentOf(file, i));
  }

  lemma CopiedLength(s: seq<bv8>)
    ensures |Copied(s)| == |s|
  {}

  lemma SendsSegment(c: Config, s: Sender, w: World, file: seq<bv8>, i: nat)
    requires Ready(c, s, w, file) && i < SegmentCount(|file|) && s == AtSegment(s, file, i)
    ensures !IsSendComplete(s.transaction)
    ensures var w1 := w.(clock := w.clock + 3, log := w.log + [Sent(SegmentPdu(HeaderOf(s.transaction), file, i))]);
      TransmitFileData(c, s, Tick(w)) == Attempt(true, AtSegment(s, file, i + 1), w1)
      && SendLoop(c, s, w) == SendLoop(c, AtSegment(s, file, i + 1), w1)
  {
    hide MinimalBytes, Copied, Encodable;
    SegmentBounds(|file|, i);
    SegmentEncodable(HeaderOf(s.transaction), file, i);
    assert s.transaction.filePosition + SegmentLength(s.transaction) == SegmentTo(|file|, i + 1);
  }

  function Finishing(s: Sender): seq<Effect> {
    [Indicated(TheSender, EofSent, s.id), Indicated(TheSender, TransactionFinished, s.id)]
  }

  lemma SendsEof(c: Config, s: Sender, w: World, file: seq<bv8>)
    requires Ready(c, s, w, file) && s == AtSegment(s, file, SegmentCount(|file|))
    ensures var sum := SourceSum(c, s.transaction.sourceName, file, c.stale(w.clock + 1));
      var eof := EofPdu(HeaderOf(s.transaction), s.condition, sum, |file|);
      SendLoop(c, s, w) == (Close(s), w.(clock := w.clock + 3, log := w.log + [Sent(eof)] + Finishing(s)))
  {
    hide MinimalBytes, SourceSum;
    SegmentBounds(|file|, SegmentCount(|file|));
    var sum := SourceSum(c, s.transaction.sourceName, file, c.stale(w.clock + 1));
    var eof := EofPdu(HeaderOf(s.transaction), s.condition, sum, |file|);
    SumBound(c, s.transaction.sourceName, file, c.stale(w.clock + 1));
    assert EofOf(c, s, Tick(w)) == eof;
    assert Encodable(eof);
    assert w.log + [Sent(eof)] + Finishing(s)
        == w.log + [Sent(eof)] + [Indicated(TheSender, EofSent, s.id)] + [Indicated(TheSender, TransactionFinished, s.id)];
  }

  /** The remaining segments in order, then the EOF. */
  lemma {:induction false} LoopSendsAll(c: Config, s: Sender, w: World, file: seq<bv8>, i: nat)
    requires Ready(c, s, w, file) && i <= SegmentCount(|file|) && s == AtSegment(s, file, i)
    ensures var n := SegmentCount(|file|);
      var h := HeaderOf(s.transaction);
      var sum := SourceSum(c, s.transaction.sourceName, file, c.stale(w.clock + 3 * (n - i) + 1));
      SendLoop(c, s, w) == (Close(AtSegment(s, file, n)),
        w.(clock := w.clock + 3 * (n - i) + 3,
           log := w.log + AllSent(SegmentPdus(h, file, i)) + [Sent(EofPdu(h, s.condition, sum, |file|))] + Finishing(s)))
    decreases SegmentCount(|file|) - i
  {
    hide HeaderOf, SendLoop, TransmitFileData, SegmentPdu, SourceSum;
    var h := HeaderOf(s.transaction);
    if i == SegmentCount(|file|) {
      SendsEof(c, s, w, file);
      assert w.log + AllSent(SegmentPdus(h, file, i)) == w.log;
    } else {
      SendsSegment(c, s, w, file, i);
      var s1 := AtSegment(s, file, i + 1);
      var w1 := w.(clock := w.clock + 3, log := w.log + [Sent(SegmentPdu(h, file, i))]);
      SameHeader(s.transaction, s1.transaction);
      LoopSendsAll(c, s1, w1, file, i + 1);
      assert w.log + AllSent(SegmentPdus(h, file, i)) == w1.log + AllSent(SegmentPdus(h, file, i + 1));
    }
  }

  lemma SendsMetadata(c: Config, s: Sender, w: World, file: seq<bv8>)
    requires Willing(c, w.clock) && ValidIds(HeaderOf(s.transaction)) && Sends(c, s.transaction, file, w)
    requires |s.transaction.sourceName| < MAX_FILE_NAME && |s.transaction.destinationName| < MAX_FILE_NAME
    ensures TransmitMetadata(c, s, w)
         == Attempt(true, s.(transaction := s.transaction.(fileSize := |file|)),
                    w.(clock := w.clock + 1, log := w.log + [Sent(MetadataPdu(c, s.transaction, |file|))]))
  {
    hide MinimalBytes;
    assert Encodable(MetadataPdu(c, s.transaction, |file|));
  }

  lemma JoinLog<T>(log: seq<T>, m: T, mid: seq<T>, e: T, f: seq<T>)
    ensures log + [m] + mid + [e] + f == log + ([m] + mid + [e]) + f
  {}

  lemma AllSentJoins(c: Config, t: Transaction, file: seq<bv8>, checksum: nat)
    ensures AllSent(TransferPdus(c, t, file, checksum))
         == [Sent(MetadataPdu(c, t, |file|))] + AllSent(SegmentPdus(HeaderOf(t), file, 0)) + [Sent(EofPdu(HeaderOf(t), NoError, checksum, |file|))]
  {
    hide HeaderOf, SegmentPdu, EofPdu, MetadataPdu;
  }

  lemma SenderPutSendsAll(c: Config, s: Sender, w: World, file: seq<bv8>)
    requires Willing(c, w.clock) && ValidIds(HeaderOf(s.transaction)) && Sends(c, s.transaction, file, w)
    requires |s.transaction.sourceName| < MAX_FILE_NAME && |s.transaction.destinationName| < MAX_FILE_NAME
    requires s.condition.NoError? && !IsPaused(s) && s.transaction.filePosition == 0
    ensures var (s', w') := SenderPut(c, s, w);
      var sum := SourceSum(c, s.transaction.sourceName, file, c.stale(w.clock + 3 * SegmentCount(|file|) + 2));
      && s'.state == Completed && s'.id == s.id && w'.files == w.files
      && w'.log == w.log + [Indicated(TheSender, TransactionStarted, s.id)] + AllSent(TransferPdus(c, s.transaction, file, sum)) + Finishing(s)
  {
    hide TransmitMetadata, SendLoop, HeaderOf, EofPdu, MetadataPdu, AllSent, SegmentPdus, TransferPdus, SourceSum;
    var t, n, w1 := s.transaction, SegmentCount(|file|), Tell(s, w, TransactionStarted);
    SendsMetadata(c, s, w1, file);
    var a := TransmitMetadata(c, s, w1);
    SameHeader(t, a.s.transaction);
    LoopSendsAll(c, a.s.(state := SendFile), a.w, file, 0);
    var sum := SourceSum(c, t.sourceName, file, c.stale(w.clock + 3 * n + 2));
    JoinLog(w1.log, Sent(MetadataPdu(c, t, |file|)), AllSent(SegmentPdus(HeaderOf(t), file, 0)),
            Sent(EofPdu(HeaderOf(t), NoError, sum, |file|)), Finishing(s));
    AllSentJoins(c, t, file, sum);
  }

  /** An uninterrupted put of a file sends Metadata, ceil(size / 4096) FileData PDUs at contiguous
      offsets with the copied segments, and one EOF with the file's checksum and size, and finishes. */
  lemma PutSendsAll(c: Config, k: Core, destination: nat, sourceName: Name, destinationName: Name, file: seq<bv8>)
    requires var t := NextTransaction(c, k, destination, sourceName, destinationName);
      Willing(c, k.w.clock) && ValidIds(HeaderOf(t)) && Sends(c, t, file, k.w)
    ensures var t := NextTransaction(c, k, destination, sourceName, destinationName);
      var k' := Put(c, k, destination, sourceName, destinationName);
      var sum := SourceSum(c, t.sourceName, file, c.stale(k.w.clock + 3 * SegmentCount(|file|) + 2));
      && k'.sender.state == Completed && k'.sender.id == IdOf(t.source, t.seqNumber)
      && k'.receiver == k.receiver && k'.w.files == k.w.files
      && k'.w.log == k.w.log + [Started(TheSender, k'.sender.id)] + [Indicated(TheSender, TransactionStarted, k'.sender.id)]
         + AllSent(TransferPdus(c, t, file, sum)) + Finishing(k'.sender)
  {
    hide ClippedName, SenderPut, HeaderOf, TransferPdus, AllSent, SourceSum;
    var t := NextTransaction(c, k, destination, sourceName, destinationName);
    ClippedIsShort(sourceName); ClippedIsShort(destinationName);
    var s := InitSender(k.sender, t);
    SenderPutSendsAll(c, s, Emit(k.w, Started(TheSender, s.id)), file);
  }

  lemma {:induction false} SentInARow(w: World, pdus: seq<Pdu>)
    ensures SentSince(w.log + AllSent(pdus)) == SentSince(w.log) + pdus
  {
    hide SentSince;
    if pdus == [] {
      assert w.log + AllSent(pdus) == w.log;
    } else {
      var n := |pdus| - 1;
      var w1 := w.(log := w.log + AllSent(pdus[..n]));
      SentInARow(w, pdus[..n]);
      assert w.log + AllSent(pdus) == w1.log + [Sent(pdus[n])];
      assert pdus == pdus[..n] + [pdus[n]];
      SenderRuns.Emitted(w1, Sent(pdus[n]));
    }
  }

  lemma SentByPut(w: World, s: Sender, pdus: seq<Pdu>)
    ensures SentSince(w.log + [Started(TheSender, s.id)] + [Indicated(TheSender, TransactionStarted, s.id)] + AllSent(pdus) + Finishing(s)) == pdus
  {
    hide SentSince, AllSent, TerminalsSince, ToldSuspended, Paced, ProgressIn;
    var w0 := Emit(w, Started(TheSender, s.id));
    var w1 := Emit(w0, Indicated(TheSender, TransactionStarted, s.id));
    var w2 := w1.(log := w1.log + AllSent(pdus));
    var w3 := Emit(w2, Indicated(TheSender, EofSent, s.id));
    SenderRuns.Emitted(w, Started(TheSender, s.id));
    SenderRuns.Emitted(w0, Indicated(TheSender, TransactionStarted, s.id));
    SentInARow(w1, pdus);
    SenderRuns.Emitted(w2, Indicated(TheSender, EofSent, s.id));
    SenderRuns.Emitted(w3, Indicated(TheSender, TransactionFinished, s.id));
    assert w2.log + Finishing(s) == Emit(w3, Indicated(TheSender, TransactionFinished, s.id)).log;
  }

  /** In terms of what was sent: an uninterrupted put is complete at once, so that there are transfers as
      EndToEnd of FileTransfers supposes them. */
  lemma PutIsComplete(c: Config, k: Core, destination: nat, sourceName: Name, destinationName: Name, file: seq<bv8>)
    requires var t := NextTransaction(c, k, destination, sourceName, destinationName);
      Willing(c, k.w.clock) && ValidIds(HeaderOf(t)) && Sends(c, t, file, k.w)
    ensures var t := NextTransaction(c, k, destination, sourceName, destinationName);
      var k' := Put(c, k, destination, sourceName, destinationName);
      var sum := SourceSum(c, t.sourceName, file, c.stale(k.w.clock + 3 * SegmentCount(|file|) + 2));
      var sent := SentSince(Run(c, k', []).w.log);
      && sent == TransferPdus(c, t, file, sum) && IsComplete(sent[|sent| - 1]) && FileStays(c, k', [], t, file)
  {
    hide ClippedName, Put, HeaderOf, Plan, AllSent, SourceSum, SentSince, Finishing;
    var t := NextTransaction(c, k, destination, sourceName, destinationName);
    var sum := SourceSum(c, t.sourceName, file, c.stale(k.w.clock + 3 * SegmentCount(|file|) + 2));
    PutSendsAll(c, k, destination, sourceName, destinationName, file);
    SentByPut(k.w, Put(c, k, destination, sourceName, destinationName).sender, TransferPdus(c, t, file, sum));
  }

  lemma ClippedIsShort(name: Name)
    ensures |ClippedName(name)| < MAX_FILE_NAME
  {}

  /** With identifiers that one header cannot carry, a zero one or entity ids of different lengths, a put
      sends nothing: it reports an encoding error and closes. */
  lemma UnencodableIds(c: Config, k: Core, destination: nat, sourceName: Name, destinationName: Name)
    requires !ValidIds(HeaderOf(NextTransaction(c, k, destination, sourceName, destinationName)))
    ensures var k' := Put(c, k, destination, sourceName, destinationName);
      var id := IdOf(c.entityId, (k.seqNumber + 1) % UINT32);
      && k'.sender.state == Completed && k'.w.files == k.w.files
      && k'.w.log == k.w.log + [Started(TheSender, id), Indicated(TheSender, TransactionStarted, id), Error(Asn1sccError)]
  {
    hide ClippedName, MinimalBytes;
    var t := NextTransaction(c, k, destination, sourceName, destinationName);
    var s := InitSender(k.sender, t);
    var w := Tell(s, Emit(k.w, Started(TheSender, s.id)), TransactionStarted);
    assert !Encodable(MetadataOf(c, t, w));
    assert SenderPut(c, s, Emit(k.w, Started(TheSender, s.id))).1 == Emit(w, Error(Asn1sccError));
  }
}

/** Who the PDUs of a put are from and for: their headers, in every run. */
module SentHeaders {
  import opened CStrings
  import opened Identifiers
  import opened Integers
  import opened Pdus
  import opened Protocol
  import opened SenderRuns
  import opened SentFiles

  // ---------- the header of a transaction ----------

  /** A header of version 1, towards the receiver, unacknowledged and without CRC, that denotes the given
      numbers, without leading zero bytes. */
  predicate IsHeader(h: Header, source: nat, seqNumber: nat, destination: nat) {
    && h.version == 1 && h.direction.TowardReceiver? && h.mode.Unacknowledged? && h.crcFlag.CrcNotPresent?
    && IsMinimal(h.source, source) && IsMinimal(h.seqNumber, seqNumber) && IsMinimal(h.destination, destination)
  }

  predicate IsMinimal(bytes: seq<bv8>, v: nat) { ValueOf(bytes) == v && (bytes != [] ==> bytes[0] != 0) }

  lemma HeaderDenotes(t: Transaction)
    ensures IsHeader(HeaderOf(t), t.source, t.seqNumber, t.destination)
  {
    hide MinimalBytes, ValueOf;
    MinimalDenotes(t.source); MinimalDenotes(t.seqNumber); MinimalDenotes(t.destination);
  }

  lemma MinimalDenotes(v: nat)
    ensures IsMinimal(MinimalBytes(v), v)
  {
    hide ValueOf;
    ValueOfMinimalBytes(v);
    if v > 0 { FirstNotZero(v); }
  }

  lemma {:induction false} FirstNotZero(v: nat)
    requires v > 0
    ensures |MinimalBytes(v)| > 0 && MinimalBytes(v)[0] != 0
  {
    hide Cast;
    CastValue(v);
    if v >= 0x100 { FirstNotZero(v / 0x100); } else { assert MinimalBytes(v / 0x100) == []; }
  }

  /** One header can carry the numbers: none is 0 or takes more than seven bytes, and those of the entities
      take equally many. */
  predicate IdsFit(source: nat, seqNumber: nat, destination: nat) {
    && 0 < source < UINT56 && 0 < seqNumber < UINT56 && 0 < destination < UINT56
    && exists n: nat | 1 <= n <= 7 :: Takes(source, n) && Takes(destination, n)
  }

  /** v takes n bytes. */
  predicate Takes(v: nat, n: nat)
    requires n > 0
  {
    Pow256(n - 1) <= v < Pow256(n)
  }

  lemma {:induction false} TakesIff(v: nat, n: nat)
    requires v > 0 && n > 0
    ensures Takes(v, n) <==> |MinimalBytes(v)| == n
  {
    hide Cast;
    if v < 0x100 {
      assert MinimalBytes(v / 0x100) == [];
      if n > 1 { PowersGrow(1, n - 1); assert Pow256(1) == 0x100; }
    } else {
      MinimalBytesNotEmpty(v / 0x100);
      if n > 1 { TakesIff(v / 0x100, n - 1); }
    }
  }

  lemma MinimalBytesNotEmpty(v: nat)
    requires v > 0
    ensures |MinimalBytes(v)| > 0
  {}

  lemma ValidIdsIff(t: Transaction)
    ensures ValidIds(HeaderOf(t)) <==> IdsFit(t.source, t.seqNumber, t.destination)
  {
    hide MinimalBytes, Pow256;
    LengthIff(t.source); LengthIff(t.seqNumber); LengthIff(t.destination);
    if ValidIds(HeaderOf(t)) {
      var n := |MinimalBytes(t.source)|;
      TakesIff(t.source, n); TakesIff(t.destination, n);
      assert Takes(t.source, n) && Takes(t.destination, n);
    }
    if IdsFit(t.source, t.seqNumber, t.destination) {
      var n: nat :| 1 <= n <= 7 && Takes(t.source, n) && Takes(t.destination, n);
      TakesIff(t.source, n); TakesIff(t.destination, n);
    }
  }

  lemma LengthIff(v: nat)
    ensures 1 <= |MinimalBytes(v)| <= 7 <==> 0 < v < UINT56
  {
    hide MinimalBytes;
    if 0 < v < UINT56 {
      IdentifierRoundTrip(v);
    } else if v >= UINT56 {
      var n := |MinimalBytes(v)|;
      MinimalBytesNotEmpty(v);
      TakesIff(v, n);
      if n <= 7 { PowersGrow(n, 7); SevenBytes(); }
    } else {
      assert MinimalBytes(0) == [] by { NoBytes(); }
    }
  }

  lemma SevenBytes()
    ensures Pow256(7) == UINT56
  {}

  lemma NoBytes()
    ensures MinimalBytes(0) == []
  {}

  /** With ids that one header cannot carry, a put sends nothing: it reports an encoding error and closes. */
  lemma PutUnencodable(c: Config, k: Core, destination: nat, sourceName: Name, destinationName: Name)
    requires !IdsFit(c.entityId, (k.seqNumber + 1) % UINT32, destination)
    ensures var k', id := Step(c, k, CallPut(destination, sourceName, destinationName)), IdOf(c.entityId, (k.seqNumber + 1) % UINT32);
      && k'.sender.state == Completed && k'.w.files == k.w.files
      && k'.w.log == k.w.log + [Started(TheSender, id), Indicated(TheSender, TransactionStarted, id), Error(Asn1sccError)]
  {
    hide ClippedName, IdsFit, Put, ValidIds, MinimalBytes;
    ValidIdsIff(NextTransaction(c, k, destination, sourceName, destinationName));
    UnencodableIds(c, k, destination, sourceName, destinationName);
  }

  // ---------- in every run ----------

  /** All PDUs sent since the sender last started a transaction carry the header of t. */
  predicate Headed(log: seq<Effect>, t: Transaction) {
    forall i | 0 <= i < |SentSince(log)| :: SentSince(log)[i].header == HeaderOf(t)
  }

  predicate SameIds(t: Transaction, t': Transaction) {
    t'.source == t.source && t'.seqNumber == t.seqNumber && t'.destination == t.destination
  }

  /** The sender still has the transaction t, as far as headers go, and all was sent under it. */
  predicate Loyal(s: Sender, log: seq<Effect>, t: Transaction) {
    SameIds(t, s.transaction) && Headed(log, t)
  }

  lemma TransmitLoyal(c: Config, s: Sender, w: World, p: Pdu, t: Transaction)
    requires Loyal(s, w.log, t) && p.header == HeaderOf(t)
    ensures var a := Transmit(c, s, w, p); Loyal(a.s, a.w.log, t)
  {
    hide SentSince, Encodable, MinimalBytes;
    TransmitSends(c, s, w, p);
  }

  lemma FileDataLoyal(c: Config, s: Sender, w: World, t: Transaction)
    requires Loyal(s, w.log, t) && !IsSendComplete(s.transaction)
    ensures var a := TransmitFileData(c, s, w); Loyal(a.s, a.w.log, t)
  {
    hide SentSince, Transmit, Copied, MinimalBytes;
    SenderRuns.Emitted(Tick(w), Error(FilestoreError));
    var u := s.transaction;
    var file, n := SourceFile(c, w.files, u.sourceName), SegmentLength(u);
    SameHeader(t, u);
    if (u.sourceName == LISTING_NAME || c.answers(w.clock)) && u.filePosition + n <= |file| {
      TransmitLoyal(c, s.(transaction := u.(filePosition := u.filePosition + n)), Tick(w),
                    Pdu(HeaderOf(u), FileData(u.filePosition, Copied(file[u.filePosition..u.filePosition + n]))), t);
    }
  }

  lemma EofLoyal(c: Config, s: Sender, w: World, t: Transaction)
    requires Loyal(s, w.log, t)
    ensures var a := TransmitEof(c, s, w); Loyal(a.s, a.w.log, t)
  {
    hide SentSince, Transmit, MinimalBytes, SourceSum, SourceSize;
    SameHeader(t, s.transaction);
    TransmitLoyal(c, s.(transaction := Sized(c, s.transaction, w)), Tick(w), EofOf(c, s, w), t);
  }

  lemma TellLoyal(s: Sender, s0: Sender, w: World, i: Indication, t: Transaction)
    requires Loyal(s, w.log, t)
    ensures Loyal(s, Tell(s0, w, i).log, t)
  {
    hide SentSince, MinimalBytes;
    TellSends(s0, w, i);
  }

  lemma {:induction false} LoopLoyal(c: Config, s: Sender, w: World, t: Transaction)
    requires Loyal(s, w.log, t) && s.state == SendFile
    ensures var (s', w') := SendLoop(c, s, w); Loyal(s', w'.log, t)
    decreases if IsSendComplete(s.transaction) then 0 else s.transaction.fileSize - s.transaction.filePosition
  {
    hide Headed, TransmitEof, TransmitFileData;
    if !IsPaused(s) && c.answers(w.clock) {
      if IsSendComplete(s.transaction) {
        EofLoyal(c, s, Tick(w), t);
        var a := TransmitEof(c, s, Tick(w));
        TellLoyal(a.s, s, a.w, EofSent, t);
        TellLoyal(a.s, s, Tell(s, a.w, EofSent), TransactionFinished, t);
      } else {
        FileDataLoyal(c, s, Tick(w), t);
        FileDataAdvances(c, s, Tick(w));
        var a := TransmitFileData(c, s, Tick(w));
        if a.ok { LoopLoyal(c, a.s, a.w, t); }
      }
    }
  }

  lemma CancelledLoyal(c: Config, s: Sender, w: World, t: Transaction)
    requires Loyal(s, w.log, t)
    ensures var (s', w') := SenderCancelled(c, s, w); Loyal(s', w'.log, t)
  {
    hide Headed, TransmitEof;
    EofLoyal(c, s, w, t);
    TellLoyal(TransmitEof(c, s, w).s, s, TransmitEof(c, s, w).w, TransactionFinished, t);
  }

  lemma PutLoyal(c: Config, s: Sender, w: World)
    requires SentSince(w.log) == []
    ensures var (s', w') := SenderPut(c, s, w); Loyal(s', w'.log, s.transaction)
  {
    hide SentSince, MinimalBytes, TransmitEof, SendLoop, Transmit, SourceSize;
    var t, w1 := s.transaction, Tell(s, w, TransactionStarted);
    TellSends(s, w, TransactionStarted);
    TransmitLoyal(c, s.(transaction := Sized(c, t, w1)), w1, MetadataOf(c, t, w1), t);
    var a := TransmitMetadata(c, s, w1);
    if a.ok {
      if IsFileTransfer(a.s.transaction) {
        LoopLoyal(c, a.s.(state := SendFile), a.w, t);
      } else {
        hide Headed;
        EofLoyal(c, a.s, a.w, t);
        var e := TransmitEof(c, a.s, a.w);
        TellLoyal(e.s, a.s, e.w, EofSent, t);
        TellLoyal(e.s, a.s, Tell(a.s, e.w, EofSent), TransactionFinished, t);
      }
    }
  }

  /** No event but that of a put changes the header. */
  lemma EventLoyal(c: Config, s: Sender, w: World, e: Event, u: Transaction, t: Transaction)
    requires Loyal(s, w.log, t) && s.state != SendMetadata
    ensures var (s', w') := SenderStep(c, s, w, e, u); Loyal(s', w'.log, t)
  {
    hide SentSince, MinimalBytes, SendLoop, SenderCancelled;
    if s.state == SendFile {
      SenderRuns.Emitted(w, Error(UnsupportedAction));
      TellLoyal(s, s, w, Report, t); TellLoyal(s, s, w, Abandoned, t); TellLoyal(s, s, w, Suspended, t); TellLoyal(s, s, w, Resumed, t);
      LoopLoyal(c, s, w, t);
      LoopLoyal(c, s.(isFrozen := false), w, t);
      LoopLoyal(c, s.(isSuspended := false), Tell(s, w, Resumed), t);
      CancelledLoyal(c, s, w, t);
      CancelledLoyal(c, s.(condition := CancelRequestReceived), w, t);
    }
  }

  lemma StepLoyal(c: Config, k: Core, call: Call, t: Transaction)
    requires Loyal(k.sender, k.w.log, t) && k.sender.state != SendMetadata && !call.CallPut?
    ensures var k' := Step(c, k, call); Loyal(k'.sender, k'.w.log, t) && k'.sender.state != SendMetadata
  {
    hide SentSince, TerminalsSince, ToldSuspended, Paced, ProgressIn, Step, SenderStep, MinimalBytes;
    var share := CallShare(c, k, call);
    NeverSendingMetadata(c, k, call);
    if share.Touched? { EventLoyal(c, k.sender, share.w, share.e, k.sender.transaction, t); }
  }

  /** Every PDU that a put leads to, at once or later, after whatever other calls, comes from this entity,
      carries the put's sequence number and is for the given destination. */
  lemma {:induction false} PutHeaders(c: Config, k: Core, destination: nat, sourceName: Name, destinationName: Name, calls: seq<Call>)
    requires NoPut(calls)
    ensures var k' := Run(c, Step(c, k, CallPut(destination, sourceName, destinationName)), calls);
      forall i | 0 <= i < |SentSince(k'.w.log)| ::
        IsHeader(SentSince(k'.w.log)[i].header, c.entityId, (k.seqNumber + 1) % UINT32, destination)
  {
    hide SentSince, Run, Step, IsHeader, MinimalBytes, ClippedName;
    var t := NextTransaction(c, k, destination, sourceName, destinationName);
    HeaderDenotes(t);
    RunLoyal(c, k, destination, sourceName, destinationName, calls);
  }

  lemma {:induction false} RunLoyal(c: Config, k: Core, destination: nat, sourceName: Name, destinationName: Name, calls: seq<Call>)
    requires NoPut(calls)
    ensures var k' := Run(c, Step(c, k, CallPut(destination, sourceName, destinationName)), calls);
      Loyal(k'.sender, k'.w.log, NextTransaction(c, k, destination, sourceName, destinationName)) && k'.sender.state != SendMetadata
  {
    hide SentSince, Step, Loyal, ClippedName, Put;
    var t, k1 := NextTransaction(c, k, destination, sourceName, destinationName), Step(c, k, CallPut(destination, sourceName, destinationName));
    if calls == [] {
      PutStarts(c, k, destination, sourceName, destinationName);
    } else {
      var n := |calls| - 1;
      RunLoyal(c, k, destination, sourceName, destinationName, calls[..n]);
      StepLoyal(c, Run(c, k1, calls[..n]), calls[n], t);
    }
  }

  lemma PutStarts(c: Config, k: Core, destination: nat, sourceName: Name, destinationName: Name)
    ensures var k' := Step(c, k, CallPut(destination, sourceName, destinationName));
      Loyal(k'.sender, k'.w.log, NextTransaction(c, k, destination, sourceName, destinationName)) && k'.sender.state != SendMetadata
  {
    hide SentSince, Loyal, ClippedName, SenderPut;
    var t := NextTransaction(c, k, destination, sourceName, destinationName);
    var s := InitSender(k.sender, t);
    var w := Emit(k.w, Started(TheSender, s.id));
    SenderRuns.Emitted(k.w, Started(TheSender, s.id));
    PutLoyal(c, s, w);
    PutNotWaiting(c, s, w);
  }

  lemma PutNotWaiting(c: Config, s: Sender, w: World)
    ensures SenderPut(c, s, w).0.state != SendMetadata
  {
    hide MinimalBytes, SourceSum, Encodable, SendLoop;
    var a := TransmitMetadata(c, s, Tell(s, w, TransactionStarted));
    LoopNotWaiting(c, a.s.(state := SendFile), a.w);
  }

  lemma {:induction false} LoopNotWaiting(c: Config, s: Sender, w: World)
    requires s.state == SendFile
    ensures SendLoop(c, s, w).0.state != SendMetadata
    decreases if IsSendComplete(s.transaction) then 0 else s.transaction.fileSize - s.transaction.filePosition
  {
    hide MinimalBytes, SourceSum, Encodable, Copied;
    if !IsPaused(s) && c.answers(w.clock) && !IsSendComplete(s.transaction) {
      FileDataAdvances(c, s, Tick(w));
      var a := TransmitFileData(c, s, Tick(w));
      if a.ok { LoopNotWaiting(c, a.s, a.w); }
    }
  }
}

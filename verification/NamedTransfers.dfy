/** The end-to-end results in the caller's terms: the names that a put is given. */
module NamedTransfers {
  import opened CStrings
  import opened Integers
  import opened Pdus
  import opened Protocol
  import opened SenderRuns
  import opened SentFiles
  import opened FileTransfers
  import opened InterleavedTransfers

  /** What a name becomes that is copied into a buffer of 128 bytes: the longest beginning of it without a
      zero byte and of at most 127 bytes. */
  lemma ClippedNameIs(name: Name)
    ensures var r := ClippedName(name);
      && |r| <= |name| && r == name[..|r|] && 0 !in r && |r| <= 127
      && (|r| == |name| || name[|r|] == 0 || |r| == 127)
  {}

  /** A name that fits as it is. */
  predicate IsPlain(name: Name) { |name| < 128 && 0 !in name }

  lemma ClippedIff(name: Name)
    ensures ClippedName(name) == name <==> IsPlain(name)
  {
    ClippedNameIs(name);
    if IsPlain(name) { CopiedPrefixZero(name); }
  }

  /** The transaction of the next put with such names. */
  function PlainTransaction(c: Config, k: Core, destination: nat, sourceName: Name, destinationName: Name): Transaction {
    Transaction(c.entityId, (k.seqNumber + 1) % UINT32, destination, sourceName, destinationName, 0, 0)
  }

  lemma PlainPut(c: Config, k: Core, destination: nat, sourceName: Name, destinationName: Name)
    requires IsPlain(sourceName) && IsPlain(destinationName)
    ensures NextTransaction(c, k, destination, sourceName, destinationName) == PlainTransaction(c, k, destination, sourceName, destinationName)
  {
    hide ClippedName;
    ClippedIff(sourceName); ClippedIff(destinationName);
  }

  /** The source holds the file: the listing in memory for ".listing", a file of that name otherwise. */
  predicate Holds(c: Config, k: Core, sourceName: Name, file: seq<bv8>) {
    if sourceName == [0x2E, 0x6C, 0x69, 0x73, 0x74, 0x69, 0x6E, 0x67] then file == c.listing.buffer[..c.listing.size]
    else if sourceName in k.w.files then file == k.w.files[sourceName] else file == []
  }

  /** It does so all through the run. */
  predicate HoldsOn(c: Config, k: Core, calls: seq<Call>, sourceName: Name, file: seq<bv8>) {
    Holds(c, Run(c, k, calls), sourceName, file) && (calls != [] ==> HoldsOn(c, k, calls[..|calls| - 1], sourceName, file))
  }

  lemma HoldsSends(c: Config, k: Core, t: Transaction, file: seq<bv8>)
    requires IsFileTransfer(t) && |file| < UINT32
    ensures Sends(c, t, file, k.w) <==> Holds(c, k, t.sourceName, file)
  {}

  lemma {:induction false} HoldsStays(c: Config, k: Core, calls: seq<Call>, t: Transaction, file: seq<bv8>)
    requires IsFileTransfer(t) && |file| < UINT32 && HoldsOn(c, k, calls, t.sourceName, file)
    ensures FileStays(c, k, calls, t, file)
  {
    hide Run, Holds, Sends;
    HoldsSends(c, Run(c, k, calls), t, file);
    if calls != [] { HoldsStays(c, k, calls[..|calls| - 1], t, file); }
  }

  /** A transfer that a put has started is complete: all has been sent, since an EOF without error has. */
  predicate IsSent(c: Config, k: Core, destination: nat, sourceName: Name, destinationName: Name, file: seq<bv8>, calls: seq<Call>) {
    && IsPlain(sourceName) && IsPlain(destinationName) && sourceName != [] && destinationName != [] && |file| < UINT32
    && Holds(c, k, sourceName, file) && NoPut(calls)
    && HoldsOn(c, Step(c, k, CallPut(destination, sourceName, destinationName)), calls, sourceName, file)
    && var sent := SentBy(c, k, destination, sourceName, destinationName, calls);
    && sent != [] && sent[|sent| - 1].payload.Eof? && sent[|sent| - 1].payload.condition.NoError?
  }

  /** What a put has sent, at once and in the calls after it. */
  function SentBy(c: Config, k: Core, destination: nat, sourceName: Name, destinationName: Name, calls: seq<Call>): seq<Pdu> {
    SentSince(Run(c, Step(c, k, CallPut(destination, sourceName, destinationName)), calls).w.log)
  }

  /** The other end can make something of it: it computes the same checksum, is granted all requests, is
      free for the transaction, and has no longer file of that name. */
  ghost predicate IsPrepared(a: Config, b: Config, k: Core, id: TransactionId, sourceName: Name, destinationName: Name, file: seq<bv8>) {
    && a.checksumType == b.checksumType && (a.checksumType.Modular? ==> !(1 <= |file| <= 3)) && ChecksumsAgree(a, b, sourceName, file)
    && Willing(b, k.w.clock) && Fresh(k, id) && |Contents(k.w.files, destinationName)| <= |file|
  }

  /** After the Metadata, the calls between leave the transaction alone. */
  predicate AreLeftAlone(a: Config, t: Transaction, b: Config, k: Core, file: seq<bv8>, items: seq<Item>)
    requires InFile(items, SegmentCount(|file|))
  {
    LeftAlone(b, ReceivePdu(b, k, Some(MetadataPdu(a, t, |file|))), HeaderOf(t), file, items, IdOf(t.source, t.seqNumber))
  }

  /** From the frames of the PDUs sent, amid other calls, the receiver gets the file under that name. */
  ghost predicate ArriveAmid(sent: seq<Pdu>, b: Config, k: Core, items: seq<Item>, first: Junk, last: Junk, id: TransactionId, name: Name, file: seq<bv8>) {
    && |sent| == SegmentCount(|file|) + 2 && AllEncodable(sent) && InFile(items, |sent| - 2)
    && var k' := Run(b, k, [Arrival(sent[0], first)] + CallsOf(sent, items) + [Arrival(sent[|sent| - 1], last)]);
    && Contents(k'.w.files, name) == file
    && Done(k', id, name, file)
  }

  /** The file that the put names arrives under the name that the put gives. Interruptions at both ends are
      as in EndToEndAmid. */
  lemma FileArrivesAmid(a: Config, ka: Core, destination: nat, sourceName: Name, destinationName: Name, file: seq<bv8>, calls: seq<Call>,
                        b: Config, kb: Core, items: seq<Item>, first: Junk, last: Junk)
    requires IsSent(a, ka, destination, sourceName, destinationName, file, calls) && CopiesWell(file)
    requires InFile(items, SegmentCount(|file|)) && forall i: nat | i < SegmentCount(|file|) :: i in Delivers(items)
    requires var t := PlainTransaction(a, ka, destination, sourceName, destinationName);
      && IsPrepared(a, b, kb, IdOf(t.source, t.seqNumber), sourceName, destinationName, file)
      && AreLeftAlone(a, t, b, kb, file, items)
    ensures ArriveAmid(SentBy(a, ka, destination, sourceName, destinationName, calls), b, kb, items, first, last,
                       IdOf(a.entityId, (ka.seqNumber + 1) % UINT32), destinationName, file)
  {
    hide SentSince, Run, Step, HoldsOn, FileStays, CopiesWell, ChecksumsAgree, Done, Arrival, CallsOf, HeaderOf, AllEncodable, ReceivePdu,
         LeftAlone, Holds, Sends, ClippedName, IsPlain;
    var t := PlainTransaction(a, ka, destination, sourceName, destinationName);
    PlainPut(a, ka, destination, sourceName, destinationName);
    PutStep(a, ka, destination, sourceName, destinationName);
    HoldsSends(a, ka, t, file);
    HoldsStays(a, Put(a, ka, destination, sourceName, destinationName), calls, t, file);
    EndToEndAmid(a, ka, destination, sourceName, destinationName, file, calls, b, kb, items, first, last);
    DoneFile();
  }

  lemma DoneFile()
    ensures forall k, id, name, file :: Done(k, id, name, file) ==> Contents(k.w.files, name) == file
  {}

  lemma PutStep(c: Config, k: Core, destination: nat, sourceName: Name, destinationName: Name)
    ensures Step(c, k, CallPut(destination, sourceName, destinationName)) == Put(c, k, destination, sourceName, destinationName)
  {
    hide Put;
  }

  /** The same when nothing else happens at the receiving entity, and nothing but the transfer stands in its
      log then. */
  lemma FileArrives(a: Config, ka: Core, destination: nat, sourceName: Name, destinationName: Name, file: seq<bv8>, calls: seq<Call>,
                    b: Config, kb: Core, order: seq<nat>, junk: nat -> Junk)
    requires IsSent(a, ka, destination, sourceName, destinationName, file, calls) && CopiesWell(file)
    requires Covers(order, SegmentCount(|file|))
    requires IsPrepared(a, b, kb, IdOf(a.entityId, (ka.seqNumber + 1) % UINT32), sourceName, destinationName, file)
    ensures var sent, id := SentBy(a, ka, destination, sourceName, destinationName, calls), IdOf(a.entityId, (ka.seqNumber + 1) % UINT32);
      && |sent| == SegmentCount(|file|) + 2 && AllEncodable(Delivered(sent, order))
      && var k' := Run(b, kb, Arrivals(Delivered(sent, order), junk));
      && Contents(k'.w.files, destinationName) == file
      && Received(kb, k', id, destinationName, file)
  {
    hide SentSince, Run, Step, HoldsOn, FileStays, CopiesWell, ChecksumsAgree, Received, Arrivals, Delivered, HeaderOf, AllEncodable,
         Holds, Sends, ClippedName, IsPlain;
    var t := PlainTransaction(a, ka, destination, sourceName, destinationName);
    PlainPut(a, ka, destination, sourceName, destinationName);
    PutStep(a, ka, destination, sourceName, destinationName);
    HoldsSends(a, ka, t, file);
    HoldsStays(a, Put(a, ka, destination, sourceName, destinationName), calls, t, file);
    EndToEnd(a, ka, destination, sourceName, destinationName, file, calls, b, kb, order, junk);
    ReceivedFile(kb, Run(b, kb, Arrivals(Delivered(SentBy(a, ka, destination, sourceName, destinationName, calls), order), junk)),
                 IdOf(t.source, t.seqNumber), destinationName, file);
  }

  lemma ReceivedFile(k: Core, k': Core, id: TransactionId, name: Name, file: seq<bv8>)
    requires Received(k, k', id, name, file)
    ensures Contents(k'.w.files, name) == file
  {}
}

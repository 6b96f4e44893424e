# CFDP Class 1 file transfer

N7S-CFDP sends and receives files by CFDP Class 1 (CCSDS 727.0-B-5, unacknowledged). This project models
its two cores and proves what they promise.

**The codec.** `Bits`, `BitSequences` and `BitStreams` hold the bit stream: a byte buffer and a cursor that
moves bit by bit. Its meaning is the sequence of bits before the cursor. `Integers` has the integer
coders, `Pdus` the layout of PDUs and a parser for it, `PduEncoder` and `PduDecoder` the imperative
encoders and decoders, `OctetFragments` the fragmented octet strings, `Messages` the messages to user and
`MessageRecords` what they become in the memory of a transaction. `Framing` and `Wire` cover the raw-byte
rewriting that hides the file data length on the wire, and tie bytes to PDUs; `WireBytes` writes out the
bytes of all of them.

**The protocol.** `Protocol` gives each machine's reaction to an event, and each public call, as a function
of the whole state; `CfdpCores` is the imperative entity with its machines, its buffers, and its
re-entrant requests, proved to compute exactly those functions. `Checksums`, `Identifiers` and `CStrings`
hold what both need. `SenderRuns` and `ReceiverRuns` prove what holds over every run of public calls,
`SentFiles` what of a file is sent, with and without interruptions, and `FileTransfers` follows it to the
destination over the bytes of the wire; `InterleavedTransfers` does so amid other calls, and
`NamedTransfers` under the names that the caller gives. `SentHeaders` says whose and whom for the PDUs are,
and `CallEffects` what each public call achieves.

The filestore is a map from names to contents; a missing file reads as empty. The directory listing in
memory, which stands behind the source name `.listing`, is a constant of the entity. An oracle answers
whether the transport is ready, whether it accepts a PDU, and whether the filestore performs a read, write
or deletion. Another one says what an uninitialised buffer holds. What the entity does is recorded in a log,
to which the model adds a mark where a machine starts a transaction. A public call is one step; callbacks
do not call back.

Some of what the code's callers may expect holds only under conditions, and these are the conditions the
lemmas state:

- File data is copied as a C string, segment by segment. A stored file equals the source if and only if
  in every segment zero bytes come last, and no longer file stood at the destination before
  (`FileTransfers.SegmentsStored`); the destination is never truncated.
- Where `char` is signed, sign extension adds to a word. A file of 0 or at least 4 bytes has the
  standard's checksum if and only if what it adds over all words is 0 modulo 2^32
  (`Checksums.FileChecksumIff`); 00 80 00 00 has not. For one word that means: every byte of 0x80 or more
  stands first or behind bytes of 0xFF only (`Checksums.SignedWordIff`). Two ends agree on the checksum under
  the same condition, unless both or neither have a signed `char` (`FileTransfers.ChecksumsAgreeIff`).
- The checksum loops compute `length - 4` in 32 bits. For 1 to 3 bytes the file loop sums what a
  failed read of four bytes left in a buffer that nobody filled before, so the checksum is the standard's if and only if that memory counts as the padded file does,
  and two computations agree if and only if the words found there count the same; with an unsigned `char`,
  if they are the same (`Checksums.ShortFileIsModularIff`, `Checksums.ShortFileChecksumIff`). The data loop,
  which serves the listing, reads beyond 1 to 3 bytes (`Checksums.ShortDataIsModularIff`).
- A fault completes the receiver if and only if its transaction id differs from the sender's, or the file
  cannot be deleted (`ReceiverRuns.FaultCompletesIff`); otherwise the cancellation goes to the sender. An
  entity that receives its own Metadata gets there, and no timeout ever ends its wait
  (`FileTransfers.OwnMetadata`).
- The received file size is kept in 32 bits. It is the largest end of a stored segment if and only if no end
  reaches 2^32 (`ReceiverRuns.ReceiverRun`); `ReceiverRuns.MarkWraps` is an instance of the contrary.
- One length field serves both entity ids. A put can send if and only if its ids and its sequence number
  are not 0, take at most seven bytes, and the entity ids take equally many (`SentHeaders.ValidIdsIff`,
  `PutUnencodable`); sequence number 0 comes up every 2^32 puts (`CallEffects.PutNumbers`).
- A put uses its names as given if and only if they have fewer than 128 bytes and no zero byte
  (`NamedTransfers.ClippedIff`).
- A receiver stores data if and only if the first PDU of its transaction is Metadata with file names
  (`FileTransfers.FirstPduDecides`); after FileData, nothing of the rest of the transaction is stored or
  checked (`FileTransfers.OvertakenMetadata`).
- A listing request that a caller fills in with names of up to 120 bytes is sent as filled in if and only if
  the directory name is shorter than that or the file name is empty (`MessageRecords.FilledRequestIff`): the
  arrays leave no room for the zero byte behind 120. What is sent arrives (`MessageRecords.RequestArrives`).
- The receiver copies the names of a listing response by the places of a request, in the decoded message
  and in its record, where they lie four bytes further on: its first count is the response code, and its
  second one is taken from the array of the directory name (`MessageRecords.ResponsePlaces`, `SecondCount`).
  If the second count is in range, a response has its names in the record if and only if both are empty
  (`MessageRecords.ResponseArrivesIff`). The indication is right if and only if the listing succeeded, the
  machine is big-endian, or the directory name has one byte (`MessageRecords.ListingIndicationIff`).
- An originating transaction id is sent as that of the transaction which carries it, whatever the message
  says (`MessageRecords.OriginatingIdArrives`).

## Model

| member | source | states |
|---|---|---|
| `BitStreams.BitStream.Init` | dataview/asn1crt_encoding.c:44-53 | the whole buffer is zero, so the stream starts with a zero tail |
| `BitStreams.BitStream.AppendNBitZero` | dataview/asn1crt_encoding.c:117-132 | only the cursor moves; with a zero tail this appends zeros, and past the end the byte index restarts |
| `BitStreams.BitStream.AppendBits` | dataview/asn1crt_encoding.c:136-149 | appends exactly the leading bits of a pattern, at any alignment, and keeps the zero tail |
| `BitStreams.BitStream.AppendBit` | dataview/asn1crt_encoding.c:151-169 | appends one bit, leaves every earlier and later bit |
| `BitStreams.BitStream.AppendByte` | dataview/asn1crt_encoding.c:211-231 | appends the eight bits of a byte at any alignment, leaves all other bits |
| `BitStreams.BitStream.AppendByte0` | dataview/asn1crt_encoding.c:233-252 | succeeds if and only if eight bits fit, and then appends the byte |
| `BitStreams.BitStream.AppendPartialByte` | dataview/asn1crt_encoding.c:374-415 | appends the low bits of a byte; across a byte boundary this needs the zero tail |
| `BitStreams.BitStream.AppendByteArray` | dataview/asn1crt_encoding.c:254-298 | succeeds if and only if the array fits, which one check at entry decides; appends exactly its bits, given a zero tail when the middle loop runs; otherwise nothing changes |
| `BitStreams.BitStream.EncodeOctetString_no_length` | dataview/asn1crt_encoding.c:817-856 | the same for octet strings, copied on a byte boundary |
| `BitStreams.BitStream.ReadBit` | dataview/asn1crt_encoding.c:172-184 | the bit at the cursor |
| `BitStreams.BitStream.ReadByte` | dataview/asn1crt_encoding.c:301-323 | succeeds if and only if eight bits are left, and gives the byte of those bits |
| `BitStreams.BitStream.ReadPartialByte` | dataview/asn1crt_encoding.c:418-442 | the next 1 to 7 bits as the low bits of a byte whose other bits are zero |
| `BitStreams.BitStream.ReadByteArray` | dataview/asn1crt_encoding.c:328-348 | succeeds if and only if enough bits are left, and gives the bytes of those bits; otherwise the cursor stays |
| `BitStreams.BitStream.DecodeOctetString_no_length` | dataview/asn1crt_encoding.c:858-895 | the same for octet strings |
| `BitStreams.ByteArrayReadsBack` | dataview/asn1crt_encoding.c:254-348 | an array written at any bit offset is the one read there |
| `Integers.EncodeNonNegativeInteger32` | dataview/asn1crt_encoding.c:459-504 | appends exactly the significant bits of a 32-bit number, partial byte first |
| `Integers.EncodeNonNegativeInteger` | dataview/asn1crt_encoding.c:532-551 | the same for 64 bits: high word, padding, low word |
| `Integers.DecodeNonNegativeInteger32` | dataview/asn1crt_encoding.c:506-528 | the number denoted by the next bits, although read whole bytes first |
| `Integers.DecodeNonNegativeInteger` | dataview/asn1crt_encoding.c:554-577 | the same for up to 64 bits |
| `Integers.GetNumberOfBits32` | dataview/asn1crt_encoding.c:582-606 | the number of significant bits |
| `Integers.GetNumberOfBits` | dataview/asn1crt_encoding.c:608-620 | the number of significant bits of a 64-bit number |
| `Integers.EncodeConstraintWholeNumber` | dataview/asn1crt_encoding.c:630-643 | v - min in exactly as many bits as the range needs |
| `Integers.DecodeConstraintWholeNumber` | dataview/asn1crt_encoding.c:662-686 | min plus the number denoted by as many bits as the range needs |
| `Integers.EncodeConstSize` | dataview/asn1crt_encoding_acn.c:15-28 | the n-bit form of any v that fits, at any alignment |
| `Integers.EncodeConstSize8` | dataview/asn1crt_encoding_acn.c:29-33 | the low eight bits of v |
| `Integers.EncodeBigEndian` | dataview/asn1crt_encoding_acn.c:35-60 | the low bytes of v as one big-endian bit string |
| `Integers.DecodeConstSize8` | dataview/asn1crt_encoding_acn.c:86-93 | the number of the next eight bits |
| `Integers.DecodeBigEndian` | dataview/asn1crt_encoding_acn.c:95-123 | the number of the next bytes |
| `Integers.ReadBitPattern` | dataview/asn1crt_encoding_acn.c:295-316 | reports a match if and only if the next bits are the pattern, and consumes them either way |
| `Integers.WrittenIntegerReadsBack` | dataview/asn1crt_encoding.c:459-577 | n bits written for v, wherever they start, denote v: the encoder's and the decoder's different cuts agree |
| `OctetFragments.EncodeFragments` | dataview/asn1crt_encoding.c:899-951 | appends the blocks of 64K, 48K, 32K and 16K, each behind its length byte, then the rest behind one or two length bytes |
| `OctetFragments.DecodeFragments` | dataview/asn1crt_encoding.c:953-1025 | the block loop ends, and succeeds exactly as the parser of fragments does, within the size bound |
| `OctetFragments.FragmentsRoundTrip` | dataview/asn1crt_encoding.c:899-1025 | every octet string of length 1 to the bound is recovered from its fragments, whatever follows |
| `WireBytes.FragmentBytesAre` | dataview/asn1crt_encoding.c:899-951 | the bytes of a fragmented octet string, written out: lengths below 128 in one byte, below 16K in two, blocks behind C1 to C4 |
| `PduEncoder.EncodePdu` | dataview/dataview.c:7079-7727 | succeeds if and only if the PDU satisfies its constraints and its entity ids are equally long; then exactly the PDU's bits are appended |
| `PduEncoder.PayloadBytes` | dataview/dataview.c:7195-7622 | the temporary buffer gives the payload's bits, filled up to whole bytes, and their number |
| `PduEncoder.EncodeEof` | dataview/dataview.c:774-852 | the bits of an EOF |
| `PduEncoder.EncodeMetadata` | dataview/dataview.c:2159-2262 | the bits of a Metadata PDU |
| `PduEncoder.EncodeFileData` | dataview/dataview.c:4148-4181 | the bits of file data, with its 16-bit length before the octets |
| `PduDecoder.DecodePduStream` | dataview/dataview.c:7729-8338 | succeeds exactly when the parser of PDUs does, with its result and end position; what decodes satisfies the constraints |
| `Pdus.PduRoundTrip` | dataview/dataview.c:7079-8338 | for every valid PDU with equally long entity ids, at any position and whatever follows: decoding the encoding gives it back and ends where it ends, on a byte boundary |
| `Pdus.PayloadRoundTrip` | dataview/dataview.c:7904-8331 | each kind of payload is recovered from its bits |
| `Wire.PduBitsWhole` | dataview/dataview.c:7617-7727 | the length of an encoded PDU: header, ids, and the payload bytes that the data field length announces |
| `WireBytes.HeaderBytesAre` | dataview/dataview.c:7079-7193 | the bytes of a header, written out: flags, data field length, id lengths, source, number, destination |
| `WireBytes.PayloadBytesAre` | dataview/dataview.c:7195-7622 | the bytes of each kind of payload, written out with directive and condition codes |
| `WireBytes.PduBytesAre` | dataview/dataview.c:7079-7727 | an encoded PDU has these bytes |
| `Messages.EncodeTlv` | dataview/dataview.c:9606-9752 | a request, response or originating id becomes tag, length, `cfdp`, type and body; it fails exactly for names over 120 bytes and ids of no or more than 7 bytes |
| `Messages.DecodeTlv` | dataview/dataview.c:9754-9857 | succeeds exactly as the parser of TLVs does, for all three kinds; what decodes satisfies the constraints |
| `Messages.TlvRoundTrip` | dataview/dataview.c:9606-9857 | every message that satisfies its constraints is recovered from its TLV, whatever follows |
| `WireBytes.TlvBytesAre` | dataview/dataview.c:9606-9752 | the bytes of each kind of message to user, written out |
| `MessageRecords.AppendMessages` | src/sender_machine.c:46-183 | the TLVs of the records in order, up to the first that does not encode |
| `MessageRecords.ReadMessages` | src/cfdp_core.c:299-339 | the records are filled in from the list that the parser finds behind the Metadata PDU, of at most two messages |
| `Messages.StartOffsetIsEnd` | src/cfdp_core.c:305-318 | the offset computed from the decoded fields is where the sender's Metadata encoding ends |
| `Messages.MessagesArrive` | src/cfdp_core.c:299-339 | on the wire: up to two messages are found behind the Metadata PDU, the same and in order |
| `MessageRecords.BuildMessage` | src/sender_machine.c:60-170 | names up to the first zero byte, the code, and the sender's own transaction id; what that is good for, RequestArrives, FilledRequestIff and OriginatingIdArrives say |
| `MessageRecords.AddMessage` | src/cfdp_core.c:169-297 | one record is filled in, the others stay; names are copied by the places of a request, also for responses |
| `MessageRecords.RequestPlaces` | src/cfdp_core.c:181-212 | for a request these places hold its names, and the counts are in range |
| `MessageRecords.ResponsePlaces` | src/cfdp_core.c:236-266 | for a response, the first count is the code, followed by the directory name's count, and the second name starts with the file name's count |
| `MessageRecords.SecondCount` | src/cfdp_core.c:252-266 | up to 116 bytes of directory name, the copying stays in range exactly if what that memory held before is a count in range |
| `MessageRecords.RecordsArrive` | src/cfdp_core.c:299-339 | from the sender's records over the wire to the receiver's: kinds stay, requests keep their names, ids are those of the transaction, successful responses are told as such |
| `MessageRecords.RequestArrives` | src/cfdp_core.c:175-215 | a request that encodes arrives with the names that were read, up to 120 bytes each, whatever the record held |
| `MessageRecords.FilledRequestIff` | src/sender_machine.c:66-91 | a request filled in with names of up to 120 bytes is sent as filled in exactly if the directory name is shorter or the file name is empty; otherwise it does not encode |
| `MessageRecords.FilledResponseIff` | src/sender_machine.c:93-144 | the same for a response, whose code is sent as it is |
| `MessageRecords.ResponseArrivesIff` | src/cfdp_core.c:216-269 | with counts in range, a cleared record has the names of a response exactly if both are empty |
| `MessageRecords.ListingIndicationIff` | src/transaction.c:283-309 | exactly when a received response gives a successful, when an unsuccessful, and when the right listing indication |
| `MessageRecords.OriginatingIdArrives` | src/sender_machine.c:145-162 | it encodes exactly if both numbers are positive, and the receiver gets the id of the sending transaction |
| `Framing.StripDeterminant` | src/sender_machine.c:307-325 | the sent bytes: the two determinant bytes gone, the length field two less |
| `Framing.InsertDeterminant` | src/cfdp_core.c:119-167 | the shift loops open a gap behind the segment offset, fill in the length, and add two to the length field; PDUs without file data stay |
| `Framing.DecrementLengthValue` | src/sender_machine.c:321-325 | byte-wise decrement with borrow is a 16-bit decrement |
| `Framing.IncrementLengthValue` | src/cfdp_core.c:160-164 | byte-wise increment with carry is a 16-bit increment |
| `Framing.IncrementUndoesDecrement` | src/cfdp_core.c:160-164 | they are inverse on the bytes |
| `Wire.InsertRestoresStripped` | src/cfdp_core.c:119-167 | from the stripped bytes of any FileData encoding, whatever follows in the buffer, the shift loops restore the original bytes |
| `Wire.FrameRoundTrip` | src/cfdp_core.c:725-754 | whatever PDU is framed, the receiver decodes that PDU from its buffer |
| `WireBytes.FrameBytes` | src/sender_machine.c:307-333 | the bytes on the wire: file data are header, offset and data, and the header counts them |
| `CfdpCores.FramesDecode` | src/sender_machine.c:327-333 | the bytes given to the transport are, one for one, frames of the PDUs sent |
| `Identifiers.BytesBigEndian` | src/sender_machine.c:7-21 | the minimal big-endian bytes, at most seven, in place |
| `Identifiers.BytesToULong` | src/cfdp_core.c:10-18 | the big-endian value of at most eight bytes, without overflow |
| `Identifiers.IdentifierRoundTrip` | src/sender_machine.c:7-21 | 1 to 2^56 - 1 take one to seven bytes, the first not zero, and are read back |
| `Identifiers.MinimalBytesInjective` | src/sender_machine.c:7-21 | different identifiers have different bytes |
| `CStrings.CopyString` | src/sender_machine.c:286-289 | the copy ends at the first zero byte; zeros follow |
| `CStrings.CopiedIff` | src/sender_machine.c:286-289 | nothing is lost if and only if zero bytes come last |
| `Checksums.DataChecksum` | src/transaction.c:7-33 | the standard's modular checksum; for 1 to 3 bytes, that of a whole word |
| `Checksums.FileChecksum` | src/transaction.c:35-69 | the loop over reads of four bytes accumulates the ORed words of the file, or of the unfilled buffer for 1 to 3 bytes |
| `Checksums.OrBytes` | src/transaction.c:25-27 | a word is the OR of its placed bytes |
| `Checksums.UnsignedWord` | src/transaction.c:25-27 | unsigned bytes ORed into place are the zero-padded big-endian word |
| `Checksums.SignedWordIff` | src/transaction.c:61-63 | with a signed char, exactly when the word is right |
| `Checksums.FileChecksumIff` | src/transaction.c:35-69 | but for 1 to 3 bytes: the stored file's checksum is the standard's exactly if char is unsigned or sign extension adds 0 modulo 2^32 |
| `Checksums.NullChecksum` | src/transaction.c:10-12 | without a checksum type the checksum is 0 |
| `Checksums.LowBytesAddNothing` | src/transaction.c:61-63 | with bytes below 0x80 sign extension adds nothing |
| `Checksums.SignedCharCounterexample` | src/transaction.c:48-63 | 00 80 00 00 has another checksum with a signed char |
| `Checksums.SignedCharCoincidence` | src/transaction.c:48-63 | 7F 80 00 00 twice has the right one, although neither word has |
| `Checksums.ShortFileChecksumIff` | src/transaction.c:48-60 | two checksums of a file of 1 to 3 bytes agree exactly if the words in the unfilled buffers count the same; with an unsigned char, if they are the same |
| `Checksums.ShortFileIsModularIff` | src/transaction.c:48-60 | such a checksum is the standard's exactly if the word in the unfilled buffer counts as the padded file does |
| `Checksums.ShortDataIsModularIff` | src/transaction.c:16-27 | the checksum of 1 to 3 bytes in memory is the standard's exactly if zeros lie behind them |
| `Checksums.SegmentsInOrder` | src/transaction.c:164-167 | the checksum of a file is the sum of its segments' checksums, if all but the last are whole words |
| `Checksums.SegmentsInAnyOrder` | src/transaction.c:164-167 | in any order of the segments |
| `CfdpCores.CfdpCore.constructor` | src/cfdp_core.c:20-57 | both machines idle, nothing sent |
| `CfdpCores.CfdpCore.EncodeToBuffer` | src/sender_machine.c:242-255 | the cleared PDU buffer starts with exactly the bytes of the PDU, or the PDU is not encodable |
| `CfdpCores.CfdpCore.SenderSendMetadata` | src/sender_machine.c:204-268 | sends Metadata with the size noted in the transaction, or reports why not; its fields are those of `CallEffects.TransferFields` and `SentHeaders.HeaderDenotes` |
| `CfdpCores.CfdpCore.SenderSendFileData` | src/sender_machine.c:270-336 | reads, copies, encodes, strips and sends one segment; the position moves on once it is read |
| `CfdpCores.CfdpCore.SenderSendEof` | src/sender_machine.c:338-378 | sends an EOF with condition, checksum and size |
| `CfdpCores.CfdpCore.GetChecksum` | src/transaction.c:87-92 | the checksum of the stored file with the entity's own checksum type |
| `CfdpCores.CfdpCore.GetSourceChecksum` | src/transaction.c:138-155 | the checksum of what the transaction sends: nothing, the listing in memory, or a stored file |
| `CfdpCores.CfdpCore.GetFileSize` | src/transaction.c:118-136 | the size of the listing or the stored file, noted in the transaction |
| `CfdpCores.CfdpCore.GetSegment` | src/transaction.c:157-191 | the next segment of the listing or the stored file; without it the position stays and an error is reported |
| `CfdpCores.CfdpCore.SenderUpdateState` | src/sender_machine.c:380-548 | one event of the sender, nested requests included, is the sender's step function |
| `CfdpCores.CfdpCore.SenderSends` | src/sender_machine.c:432-471 | E1 through its own requests: it ends because what is left to send decreases, and is the send loop of the specification |
| `CfdpCores.CfdpCore.ReceiverUpdateState` | src/receiver_machine.c:29-248 | one event of the receiver is its step function; the PDU is there whenever the event needs it |
| `CfdpCores.CfdpCore.ReceiverGetsEof` | src/receiver_machine.c:159-205 | size check, checksum check, fault handler and deletion in their order |
| `CfdpCores.CfdpCore.ReceiverStores` | src/receiver_machine.c:138-157 | the segment is written and the 32-bit mark raised |
| `CfdpCores.CfdpCore.LinkState` | src/cfdp_core.c:99-112 | freeze and thaw reach the sender if and only if its transaction has the given destination |
| `CfdpCores.CfdpCore.IssueRequest` | src/cfdp_core.c:341-357 | a request goes to the sender if its id matches, else to the receiver, else nowhere |
| `CfdpCores.CfdpCore.RunFaultHandler` | src/cfdp_core.c:782-809 | each action's request |
| `CfdpCores.CfdpCore.Put` | src/cfdp_core.c:359-418 | the step CallPut, and the id of the transaction; `CallEffects.PutId`, `SentFiles.PutSendsAll`, `CallEffects.PutWaits`, `PutRefused` and `PutWithoutFile` say what that achieves |
| `CfdpCores.CfdpCore.ReceivedPdu` | src/cfdp_core.c:725-780 | received bytes are un-framed, decoded and routed: the step CallReceived, whose effect for every kind of PDU the rows of `CallEffects` below state |
| `CfdpCores.CfdpCore.HandleNewReceiver` | src/cfdp_core.c:638-723 | a first PDU starts a receiver and is delivered to it |
| `CfdpCores.CfdpCore.Cancel` | src/cfdp_core.c:420-425 | the step CallCancel, for any id; see `CallEffects.CancelCall`, `CancelReceiving` and `RequestNobody` |
| `CfdpCores.CfdpCore.Suspend` | src/cfdp_core.c:427-432 | the step CallSuspend; see `CallEffects.SuspendCall` |
| `CfdpCores.CfdpCore.Resume` | src/cfdp_core.c:434-439 | the step CallResume; see `CallEffects.ResumeCall` and `ResumeFrozen` |
| `CfdpCores.CfdpCore.ReportOn` | src/cfdp_core.c:441-446 | the step CallReport; see `CallEffects.ReportCall` |
| `CfdpCores.CfdpCore.Freeze` | src/cfdp_core.c:565-569 | the step CallFreeze; see `CallEffects.FreezeCall` |
| `CfdpCores.CfdpCore.Thaw` | src/cfdp_core.c:571-575 | the step CallThaw; see `CallEffects.ThawCall` and `ThawElsewhere` |
| `CfdpCores.CfdpCore.TransportIsReady` | src/cfdp_core.c:816-820 | the step CallTransportReady; see `CallEffects.ReadyCall` |
| `CfdpCores.CfdpCore.TimerExpired` | src/receiver_timer.c:33-37 | the step CallTimerExpired; see `CallEffects.TimerCall` |
| `CallEffects.SuspendCall` | src/sender_machine.c:487-501 | a sender is suspended and tells it once; if it is already, nothing changes |
| `CallEffects.SuspendedRun` | src/sender_machine.c:432-435 | from a suspend call on, no FileData and no EOF without error, until a call that ends the pause |
| `CallEffects.FreezeCall` | src/sender_machine.c:528-531 | a sender for that destination is frozen, which is not told; others are not touched |
| `CallEffects.ReadyCall` | src/sender_machine.c:432-471 | a sender that meets no resistance sends the rest of its segments and the EOF, and finishes |
| `CallEffects.ResumeCall` | src/sender_machine.c:502-513 | the suspension ends, which is told, and the rest is sent |
| `CallEffects.ResumeFrozen` | src/sender_machine.c:502-513 | a frozen sender that is resumed stays frozen and sends nothing |
| `CallEffects.ThawCall` | src/sender_machine.c:532-541 | the freeze ends and the rest is sent |
| `CallEffects.ThawElsewhere` | src/sender_machine.c:532-541 | a thaw for another destination, or of a sender not frozen, does nothing, and one of a suspended sender only ends the freeze |
| `CallEffects.NotReady` | src/sender_machine.c:437-442 | a transport that is not ready gets nothing |
| `CallEffects.ReadRefused` | src/sender_machine.c:456-461 | a segment that cannot be read closes the sender with an error |
| `CallEffects.SegmentRefused` | src/sender_machine.c:456-461 | so does a segment that the transport does not take; the position has moved on |
| `CallEffects.EofRefused` | src/sender_machine.c:444-449 | so does an EOF that it does not take, and the sender does not tell that it finished |
| `CallEffects.CancelCall` | src/sender_machine.c:479-486 | a cancelled sender sends exactly one EOF with that condition, the checksum and the size of now, or an error stands in its place; it tells that it finished, and is done |
| `CallEffects.CancelReceiving` | src/receiver_machine.c:227-235 | a cancelled receiver finishes as cancelled; files and sender stay |
| `CallEffects.CancelArrives` | src/cfdp_core.c:588-594 | over the wire: a sender's cancellation finishes the receiver as cancelled, with no file changed at either end |
| `CallEffects.ReportCall` | src/sender_machine.c:522-527 | one report indication by the machine that has the transaction |
| `CallEffects.PauseReceiving` | src/receiver_machine.c:242-245 | a receiver complains about suspend and resume |
| `CallEffects.RequestNobody` | src/cfdp_core.c:341-357 | requests for a transaction that is over or unknown do nothing |
| `CallEffects.TimerCall` | src/receiver_machine.c:218-226 | a timeout finishes a waiting receiver as cancelled, unless the sender has the same id |
| `CallEffects.FaultActions` | src/cfdp_core.c:782-809 | what each action of the fault handler does to a receiver |
| `CallEffects.SenderFaultActions` | src/cfdp_core.c:782-809 | and to a sender |
| `CallEffects.PutWithoutFile` | src/sender_machine.c:404-418 | a put without a source or destination name sends Metadata and an EOF, and finishes |
| `CallEffects.PutRefused` | src/sender_machine.c:260-265 | Metadata that the transport does not take closes the sender with an error |
| `CallEffects.PutWaits` | src/sender_machine.c:185-197 | the whole state of a sender that waits in front of its first segment, fresh whatever came before |
| `CallEffects.TransferFields` | src/sender_machine.c:204-378 | the PDUs of a transfer field by field: Metadata, 4096-byte segments at their offsets, EOF |
| `CallEffects.PutId` | src/cfdp_core.c:359-418 | the id a put leaves the sender with, from the entity and the next number |
| `CallEffects.PutNumbers` | src/cfdp_core.c:366 | in every run the sequence number counts the puts, modulo 2^32 |
| `CallEffects.PutsDiffer` | src/cfdp_core.c:366 | puts fewer than 2^32 puts apart get different ids |
| `CallEffects.PduRefused` | src/cfdp_core.c:638-661 | undecodable bytes, acknowledged mode, and PDUs no receiver starts with give one error each |
| `CallEffects.PduToSender` | src/cfdp_core.c:766-771 | a sender complains about whatever PDU it gets |
| `CallEffects.MetadataStarts` | src/cfdp_core.c:663-723 | the whole state of a receiver after its first Metadata |
| `CallEffects.EofStarts` | src/receiver_machine.c:75-86 | a transaction that begins with its EOF ends with the EOF's condition |
| `CallEffects.EofCancels` | src/receiver_machine.c:206-217 | an EOF with an error finishes a waiting receiver with that condition, whatever else it says; files stay, no EOF is told |
| `CallEffects.SegmentReceived` | src/receiver_machine.c:132-157 | a segment is told and stored, or the receiver closes with an error; the whole new state |
| `CallEffects.WriteAtIs` | src/transaction.c:71-85 | stored data stand at their offset, all else stays, gaps are zero |
| `CallEffects.OutOfTurn` | src/receiver_machine.c:242-245 | FileData before the Metadata, a second Metadata, Finished and Ack change nothing but give errors |
| `CallEffects.EofWithoutFile` | src/receiver_machine.c:159-205 | without a file, or before the Metadata, any EOF without error finishes the receiver |
| `CallEffects.EofReceivedCall` | src/receiver_machine.c:159-205 | with a file: content exactly if size and checksum fit, otherwise cancelled, and deleted if it is the checksum |
| `CallEffects.Complaints` | src/sender_machine.c:542-545 | every other event gives one error in a busy machine, and nothing in one that is done |
| `SenderRuns.SenderRun` | src/sender_machine.c:380-548 | in every run: between calls the sender is sending or done; the PDUs of a transaction are a prefix of Metadata, contiguous full segments, one EOF, complete if the EOF reports no error; at most one terminal indication; suspended and resumed alternate with no progress between |
| `SenderRuns.CompleteCount` | src/sender_machine.c:432-471 | however often interrupted, a transfer whose EOF reports no error has sent ceil(size / 4096) FileData PDUs |
| `SenderRuns.CompletedRun` | src/sender_machine.c:380-548 | after COMPLETED nothing is sent until the next put |
| `SenderRuns.CallShare` | src/cfdp_core.c:341-357 | every call but a put reaches the sender as at most one event, and a notice of cancellation never without a cancel request |
| `SenderRuns.ReceiverShare` | src/receiver_machine.c:165-198 | the receiver touches the sender only through the fault handler, and only under the same transaction id |
| `SenderRuns.PausedStep` | src/sender_machine.c:432-435 | while suspended or frozen, no call but a put or the one that ends the pause sends FileData or an EOF that reports no error; the file position stays |
| `SenderRuns.PausedRun` | src/sender_machine.c:487-541 | the same over any sequence of calls none of which ends the pause before the sender completes |
| `ReceiverRuns.ReceiverRun` | src/receiver_machine.c:29-248 | in every run: between calls the receiver waits or is done; at most one terminal indication in a transaction; while it waits the received file size is the largest end of a stored segment if and only if every end is below 2^32 |
| `ReceiverRuns.AcceptedIff` | src/receiver_machine.c:159-205 | a file transfer completes without a fault exactly when the mark is within the EOF's size and the checksums agree |
| `ReceiverRuns.AcceptedRun` | src/receiver_machine.c:132-205 | the same in every run, in terms of the segments stored |
| `ReceiverRuns.FaultCompletes` | src/receiver_machine.c:165-235 | size error, checksum failure and timeout complete the receiver as cancelled with exactly one finished indication; a checksum failure also deletes the file |
| `ReceiverRuns.FaultCompletesIff` | src/cfdp_core.c:348-356 | exactly when a fault completes the receiver |
| `ReceiverRuns.FaultPath` | src/cfdp_core.c:782-809 | what the nested requests of the default action amount to |
| `ReceiverRuns.SenderStepNeutral` | src/sender_machine.c:380-548 | no sender event changes a file or tells anything about the receiver |
| `ReceiverRuns.MarkWraps` | src/receiver_machine.c:149-155 | a segment ending at 2^32 leaves the mark at 0 |
| `SentFiles.InterruptedTransfer` | src/sender_machine.c:380-548 | however a transfer is suspended, frozen, cancelled or found not ready, while its file stays: what was sent is Metadata and the first segments with their contents, perhaps with an EOF, in order |
| `SentFiles.CompleteTransfer` | src/sender_machine.c:432-471 | and once the EOF reports no error, exactly all PDUs of the transfer |
| `SentFiles.PutSendsAll` | src/sender_machine.c:380-471 | an uninterrupted put sends Metadata, the ceil(size / 4096) segments in order, and an EOF with checksum and size, and finishes |
| `SentFiles.PutIsComplete` | src/sender_machine.c:380-471 | what it sends are the PDUs of the transfer, so that it is complete at once |
| `SentFiles.LoopSendsAll` | src/sender_machine.c:432-471 | the same from any segment on |
| `SentHeaders.HeaderDenotes` | src/sender_machine.c:23-44 | the header of a transaction: version 1, no CRC, and minimal bytes that denote source, number and destination |
| `SentHeaders.PutHeaders` | src/sender_machine.c:23-44 | every PDU that a put leads to, in whatever run, carries the entity id, the next sequence number, and the put's destination |
| `SentHeaders.ValidIdsIff` | dataview/dataview.c:7662-7665 | exactly which ids one header can carry |
| `SentHeaders.PutUnencodable` | dataview/dataview.c:7662-7665 | with other ids a put sends nothing and closes with an error |
| `FileTransfers.TransferredIff` | src/sender_machine.c:286-289 | what is sent equals the file if and only if zero bytes come last in every segment |
| `FileTransfers.FirstPduDecides` | src/cfdp_core.c:683-716 | a new receiver has a file to store if and only if its first PDU is Metadata that names one |
| `FileTransfers.OvertakenMetadata` | src/cfdp_core.c:683-716 | after FileData first, whatever Metadata and FileData of the transaction follow, in any number and order: nothing is stored, and an EOF that reports no error finishes the receiver without any check |
| `FileTransfers.SegmentsStored` | src/receiver_machine.c:132-157 | Metadata and segments in any order with any repetitions: the stored file equals the source if and only if zero bytes come last in every segment and the older file was no longer |
| `FileTransfers.ChecksumsAgreeIff` | src/transaction.c:35-69 | but for 1 to 3 bytes: the two ends compute the same checksum exactly if both or neither sign-extend, or that adds 0 modulo 2^32 |
| `FileTransfers.ArrivalsReceived` | src/cfdp_core.c:725-780 | the frames of PDUs, with any bytes behind them, are received as those PDUs |
| `FileTransfers.EndToEnd` | src/receiver_machine.c:132-205 | a put with any interruptions whose EOF reports no error, then over the bytes of the wire Metadata first, EOF last, segments in any order and repeated: the stored file is the source, and the receiver completes without a fault and with one finished indication |
| `FileTransfers.OwnMetadata` | src/cfdp_core.c:348-356 | an entity puts a file, its own Metadata frame comes back: it waits for the EOF under its sender's id, and a timeout changes nothing |
| `InterleavedTransfers.BystanderAside` | src/cfdp_core.c:341-357 | every call but a put under the same id, a cancellation of it, a timeout, its own PDUs and PDUs that start another transaction leaves the receiver, the files and what the log says about it alone |
| `InterleavedTransfers.EndToEndAmid` | src/receiver_machine.c:132-205 | the end-to-end result with any such calls of the receiving entity between the Metadata and the EOF, its own puts and transfers among them |
| `NamedTransfers.ClippedNameIs` | src/cfdp_core.c:383-389 | the longest beginning of a name without a zero byte and of at most 127 bytes |
| `NamedTransfers.ClippedIff` | src/cfdp_core.c:383-389 | a name is used as given exactly if it has fewer than 128 bytes and none is zero |
| `NamedTransfers.FileArrives` | src/receiver_machine.c:132-205 | the end-to-end result in the names given to the put: what the source name holds, the destination name holds |
| `NamedTransfers.FileArrivesAmid` | src/receiver_machine.c:132-205 | the same amid other calls |

## Left out

- Messages in the protocol: the entity of `Protocol` and `CfdpCores` sends and receives Metadata without messages to user; `Messages` and `MessageRecords` cover their way from the sender's records over the bytes to the receiver's.
- Directory listings: the processing of a listing request, which fills the listing in memory and puts `.listing` to the requester; the listing is a constant of the entity in the model.
- CfdpCores.CfdpCore.SenderSendMetadata: sends no messages to user behind the Metadata.
- CfdpCores.CfdpCore.Put: takes no messages to user.
- CfdpCores.CfdpCore.ReceiverUpdateState: neither processes messages to user on Metadata nor stops and restarts the timer.
- MessageRecords.AppendMessages: names must end within their record, as otherwise the source reads memory behind it; a response code must be one of the two. Error reports of messages that do not encode or decode are left out, here and in ReadMessages.
- MessageRecords.ReadMessages: for a response, the second count must be within a name's array, as otherwise the source copies from and to memory outside the arrays. Codes, counts and numbers are laid out without padding in front of the names; the byte order, and what the memory of a decoded message held before, are parameters.
- BitStreams.BitStream.AppendByteArray: on a byte boundary one byte of memory behind the array is required, which the source masks although that changes nothing.
- BitStreams.BitStream.ReadByteArray: on a byte boundary one byte of memory behind the array is required, which the source reads.
- Protocol.StoreSegment: a write succeeds as a whole or not at all; the filestore's partial writes are not modelled.
- Protocol.WriteAt: FileData of length 0 beyond the end extends the stored file with zeros here; a filestore need not do that for a write of no bytes.
- Checksums.FileChecksum: the buffer that the model calls stale is what the file loop's buffer holds after a failed read; a filestore may put the bytes there are into it before it fails.
- Protocol.ChecksumOf: reads of the checksum loop fail only where the file has no such bytes; the source ignores their result.
- CfdpCores.CfdpCore.ReceivedPdu: for file data of length 0 the source stores the last received byte in front of the data array; the model leaves memory alone. TLVs behind the Metadata are not looked at. The receive buffer must have room for the determinant and for one byte of reading ahead.
- CfdpCores.CfdpCore.HandleNewReceiver: a file name of 128 bytes writes its terminator behind the array in the source; the model keeps the name. Messages behind the Metadata are not decoded.
- Shared buffers: the typed PDU and the event are values here, so that their sharing between nested calls, and the layout and alignment of the data buffer, are not captured. In the source no field of them is read after a nested call.
- Timers: stopping and restarting the receiver's timer, and its errors; only the expiry is an event. The write-only delivery code is left out too.
- PduDecoder.DecodePduStream: the numbers of encoding and decoding errors are not modelled, every failure is the same; memory for one byte behind the stream is required, because short fields are read before the end is checked.
- PduEncoder.EncodePdu: needs room for the largest PDU, which the source's buffers have; writing past a shorter buffer is not modelled. Encoders take and return octets as sequences.
- Integers.EncodeNonNegativeInteger32: the negate flag, which is false at every use, is dropped.
- OctetFragments.EncodeFragments: needs room for the encoding; the length bytes of the source are written without a check.
- Generated code: the uPER variants, initialisers, equality functions, enum codecs beyond those in PDUs, streaming mode, reals and digit strings.
- Sockets, threads, the test programs and the Python peers of the repository; concurrent public calls.

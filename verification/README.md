# Verified model of the HPACK, QPACK, HTTP framing and checksum cores

This project models, in Dafny, the stateful and arithmetic cores of a Rust network-protocol library and
proves what that library promises of them. Code that computes is written as functions; code that works
in place is written as classes and methods over arrays and fields, each proved against a function that
says what it does. The theorems are about those functions, so they hold of the in-place code too.

## What is modelled

**HPACK (RFC 7541).** Bottom up: prefix integers (`HpackInteger`), bit strings (`Bits`), the Huffman codec over
any sound code table (`HuffmanCode`, `HuffmanCodec`) and the table of Appendix B (`HuffmanTable`,
`HuffmanRfc7541`), strings and representations (`HpackRepresentation`), the dynamic table as a list
(`HpackFields`) and as packed buffers (`HpackTable`), owed size updates (`HpackContext`), one encoding and one
decoding step (`HpackSession`), the objects that take those steps in place (`HpackEncoder`, `HpackDecoder`),
and the theorem that an encoder and a decoder stay in step over every run (`HpackLockstep`).

**QPACK reference accounting (RFC 9204).** Decoder instructions on the wire (`QpackInstructions`), the encoder's
outstanding sections as a list (`QpackAccounting`) and as two packed buffers (`QpackEncoderState`), the decoder's
feedback (`QpackDecoderState`) and waiting streams (`QpackBlockedStreams`), and both endpoints joined by
first-in first-out channels as a state machine (`QpackProtocol`) with its safety theorems (`QpackSafety`) and the
theorem that it can always come to rest (`QpackSettling`).

**HTTP/1 chunked bodies (RFC 9112).** Lines and field lines (`Http1Fields`), chunk extensions (`Http1Extensions`) and
chunk lines (`Http1ChunkLine`), each as it is written and as the code reads it, the body parser and the iterator
that parses chunks again (`Http1Chunked`), and the grammar of whole bodies (`Http1ChunkedGrammar`). The grammars are
printers over parse trees and use nothing of the parsers.

**HTTP/2 header blocks (RFC 9113).** Frames (`Http2Frame`), fragment parsers and in-place builders
(`Http2Fragments`), and the ordering machine with its grammar and reassembly (`Http2Sequence`).

**HTTP/3 messages (RFC 9114).** Content-Length (`Http3ContentLength`), content accounting, frame order, and how
the two agree (`Http3Message`).

**Internet checksum (RFC 1071).** One's-complement sums (`InternetChecksum`) and the TCP and UDP checksum fields
over IPv4 and IPv6 pseudoheaders (`TransportChecksum`).

## Main results

- `HpackLockstep.RunLockstep`: for every sequence of limit changes and header blocks, with any of them and any calls
  accepted or rejected on the way, decoding the emitted octets gives the encoded fields and modes in order, ends each block
  complete exactly when the encoder could finish it, and leaves equal tables, limits and owed updates. The two
  tables may have different capacities and different stale octets; the decoder's must hold every limit that the
  encoder's can.
- `HpackSession.EncodedMeaning`, `DecodedMeaning`, `EncodeRefused` and `DecodeRefused` with `HpackFields.InsertExact`: what
  each accepted step of either side requires and does to the table, and that every refusal names a fault that is there.
- `HpackContext.Coalesces`: any number of limit changes, interrupted anywhere, is made up for by at most two size
  updates, which leave the table that making every change at once would have left.
- `HpackFields.CapacityExact` and `HpackTable.RoomForEntry`: the capacity formula is exactly the bound that keeps
  every slide and metadata write of the packed table inside its buffers.
- `HuffmanCode.AcceptExact`, `RejectExact`, `RoundTrip`, `Reencode` with `HuffmanRfc7541.CodeIsSound` and `Canonical`:
  decoding accepts exactly the codewords of octets followed by at most seven ones, and coding is a bijection.
- `QpackSafety.RunIsSafe`: in every reachable state of the two endpoints no feedback has been rejected, the four
  counts are in order, outstanding references are live, no section that may still be decoded names an entry its
  table has lost, and no more streams wait than the limit allows.
- `QpackSettling.RunCanSettle`: from every reachable state the two endpoints can go on, with the encoder sending and
  inserting nothing, until nothing is outstanding, both tables are the same and every entry may be evicted.
- `QpackSafety.RunFeedbackAgrees`: hearing any prefix of the feedback on its way, as octets, gives the encoder
  exactly the Known Received Count the decoder had when it emitted that prefix.
- `Http1ChunkedGrammar.AcceptExact`, `RoundTrip` and `StrictExact`: the chunked parser accepts exactly the bodies that
  can be written from digits, extensions, data and trailers, and reads them back, chunk by chunk. That is more than
  section 7.1 of RFC 9112 allows: the code lets whitespace stand behind the last extension of a line, as in `0;a `
  (`Http1ChunkLine.TrailingSpaceAccepted`). An accepted body is one of section 7.1, less the five trailers the code
  forbids, exactly when no extensions it yields end in whitespace.
- `Http1Extensions.ExtensionsExact` and `ValueExact`: the extension loop accepts exactly the extensions that can be
  written, whitespace, tokens and quoted strings with escapes included.
- `Http1Chunked.PrefixIsIncomplete`, `AppendKeepsBody` and `RefusedAt`: a strict prefix of a body is only ever
  incomplete and asks for no more than the body has, more octets change nothing, and a refusal names a fault behind
  whole chunks.
- `Http2Sequence.AcceptExact` and `FragmentationRoundTrip`: a trace is accepted exactly when it is units and at most
  one open block, and any split of a block into built frames is parsed, accepted and reassembled.
- `Http2Fragments.HeadersExact` and `PushPromiseExact`: a fragment is accepted exactly when its payload can be laid out
  as its flags say, whatever the padding holds.
- `Http3Message.ReceivedIsData`, `FinishIsExact`, `MessageOrderExact`, `ContentWithinStream`: received content is conserved,
  a message that finishes has its declared length, the stream machine accepts a run of frames of any type exactly when
  its headers and data form a message of section 4.1 and every other frame among them may be ignored, and content
  accounting stays within that order.
- `TransportChecksum.WrittenVerifies`, `ChangedWordCaught`, `ChangedDatagram` and `ChangedLength`: what is written
  verifies. After a change of one word a TCP segment still verifies exactly when the two representations of zero were
  exchanged, and the same holds of a changed word of either address (`ChangedAddressCaught`). A UDP datagram whose changed word is not its length does exactly when they were exchanged outside the
  checksum field, and a field that becomes zero reads as no checksum, which over IPv6 is an error and over IPv4 is
  not. A changed UDP length bounds another datagram, which may be valid too (`ShorterLengthUnseen`); `ChangedLength`
  gives the exact condition.

## Model

| member | source | states |
|---|---|---|
| HpackInteger.Parse | src/http2/hpack/integer.rs:16-68 | the parsing loop, with every overflow check, computes the specification parser |
| HpackInteger.ParseExact | src/http2/hpack/integer.rs:16-68 | accepted exactly when at most ten continuation octets end and the exact sum is below 2^64, with that value and length |
| HpackInteger.IncompleteExact | src/http2/hpack/integer.rs:16-68 | "incomplete" exactly when every octet so far could still belong to a representable integer; any other rejection is overflow |
| HpackInteger.CutIsIncomplete | src/http2/hpack/integer.rs:16-68 | an accepted integer that is cut short anywhere is incomplete by one octet |
| HpackInteger.EncodedLen | src/http2/hpack/integer.rs:295-306 | the length loop counts the octets that are written |
| HpackInteger.WriteCanonical | src/http2/hpack/integer.rs:251-273 | the writing loop writes the canonical encoding and changes nothing else |
| HpackInteger.RoundTrip | src/http2/hpack/integer.rs:16-68 | parsing what was written, with any legal high bits and followed by anything, returns it and stops at its end |
| HpackInteger.Minimal | src/http2/hpack/integer.rs:251-307 | no accepted encoding of a value is shorter than the written one |
| HpackInteger.MaskMeaning | src/http2/hpack/integer.rs:16-30 | the prefix mask is all ones: one less than the power of two |
| HpackInteger.RfcIntegers | src/http2/hpack/integer.rs:251-307 | the encodings of RFC 7541 appendix C.1 |
| HuffmanCode.AcceptExact | src/rfc7541_huffman.rs:305-348 | decoding accepts exactly non-EOS codewords followed by at most seven ones, and returns what they encode |
| HuffmanCode.RejectExact | src/rfc7541_huffman.rs:305-328 | EOS is reported exactly when its codeword follows codewords of octets; the invalid-code error is never reported |
| HuffmanCode.NeverInvalid | src/rfc7541_huffman.rs:319-322 | from any state of the scan the invalid-code branch is unreachable, because the code is complete |
| HuffmanCode.RoundTrip | src/rfc7541_huffman.rs:285-348 | decoding the encoding of any octets returns them |
| HuffmanCode.Reencode | src/rfc7541_huffman.rs:285-348 | encoding what an accepted input decodes to gives the input back, so each string has one encoding |
| HuffmanTable.AllPlaced | src/rfc7541_huffman.rs:1-259 | every codeword of the table lies in the interval of its length, and its rank there leads back to its symbol |
| HuffmanTable.NextLength | src/rfc7541_huffman.rs:1-259 | the interval of the next length begins at twice the end of this one, and its ranks behind the ranks of this one |
| HuffmanRfc7541.WordsApart | src/rfc7541_huffman.rs:1-259 | no codeword of Appendix B starts another |
| HuffmanRfc7541.FollowsAny | src/rfc7541_huffman.rs:1-259 | every bit string runs along some codeword of Appendix B |
| HuffmanRfc7541.CodeIsSound | src/rfc7541_huffman.rs:1-259 | the table is a prefix-free and complete code whose EOS is thirty ones |
| HuffmanRfc7541.Canonical | src/rfc7541_huffman.rs:1-259 | codes of one length are given out in the order of the symbols, so the lengths determine the table |
| HuffmanCodec.EncodedLen | src/rfc7541_huffman.rs:274-283 | the checked bit count gives the encoding's length, or the overflow |
| HuffmanCodec.RequiredLenExact | src/rfc7541_huffman.rs:274-283 | the least octets that hold the code bits, or which count is too great |
| HuffmanCodec.EncodePrevalidated | src/rfc7541_huffman.rs:285-303 | the accumulator loop writes the packed codewords and one-padding, and nothing else |
| HuffmanCodec.DecodedLen | src/rfc7541_huffman.rs:305-328 | the validating loop reports exactly the decoder's verdict and the length of its result; the length cannot overflow |
| HuffmanCodec.DecodePrevalidated | src/rfc7541_huffman.rs:330-348 | the writing loop writes exactly the decoded octets |
| HpackFields.EvictLongest | src/http2/hpack/table.rs:257-267 | eviction keeps the longest run of newest entries that fits |
| HpackFields.EvictTwice | src/http2/hpack/table.rs:257-267 | evicting to two limits keeps what the smaller one keeps |
| HpackFields.InsertExact | src/http2/hpack/table.rs:291-333 | insertion is exactly this: an oversized field empties the table; any other becomes the newest entry, with the longest run of earlier entries that fits behind it |
| HpackFields.CapacityExact | src/http2/hpack/table.rs:336-340 | a maximum is safe for the two stores if and only if it is within the capacity formula |
| HpackTable.SlideKeepsFields | src/http2/hpack/table.rs:317-330 | sliding the octets and rebasing the offsets keeps the old fields, packed from offset 0, behind the new one |
| HpackTable.RoomForEntry | src/http2/hpack/table.rs:316-330 | within capacity, the kept octets and slots leave room for one more entry |
| HpackTable.HpackDynamicTable.Create | src/http2/hpack/table.rs:176-196 | an empty table, or the capacity error |
| HpackTable.HpackDynamicTable.Get | src/http2/hpack/table.rs:224-236 | one-based lookup in the newest-first list |
| HpackTable.HpackDynamicTable.Clear | src/http2/hpack/table.rs:239-242 | empties the list |
| HpackTable.HpackDynamicTable.Retained | src/http2/hpack/table.rs:304-309 | the eviction loop finds what the list keeps, and its size |
| HpackTable.HpackDynamicTable.SetMaximumSize | src/http2/hpack/table.rs:245-254 | the list is evicted to the new maximum, or nothing changes beyond capacity |
| HpackTable.HpackDynamicTable.SetMaximumSizePrevalidated | src/http2/hpack/table.rs:257-267 | the list is evicted to the new maximum |
| HpackTable.HpackDynamicTable.SlideStorage | src/http2/hpack/table.rs:317-324 | in the octet buffer the new field stands first and the kept octets behind it |
| HpackTable.HpackDynamicTable.SlideEntries | src/http2/hpack/table.rs:318-329 | the slots move up by one, rebased, behind the new one |
| HpackTable.HpackDynamicTable.InsertPrevalidated | src/http2/hpack/table.rs:291-334 | drop the oldest until it fits and prepend, or clear when oversized; never out of bounds |
| HpackTable.HpackDynamicTable.InsertFitting | src/http2/hpack/table.rs:316-333 | keeps the newest retained entries and puts the field in front of them |
| HpackTable.HpackDynamicTable.InsertField | src/http2/hpack/table.rs:278-286 | the checked form, whose only failure is a size that is not a machine integer |
| HpackRepresentation.StringExact | src/http2/hpack/string.rs:19-45 | a string is accepted exactly when an accepted length integer is followed by that many octets |
| HpackRepresentation.StringRoundTrip | src/http2/hpack/string.rs:19-63 | a built string, followed by anything, parses back with its flag and payload |
| HpackRepresentation.BuildString | src/http2/hpack/string.rs:140-180 | frames a payload at the front of the buffer, or writes nothing |
| HpackRepresentation.FramingExact | src/http2/hpack/representation.rs:21-49 | a representation is a prefix of its input that parses to itself, whatever follows it |
| HpackRepresentation.ParsedMeaning | src/http2/hpack/representation.rs:21-49 | an accepted indexed field names entry one or more, a literal has a name of its own exactly when its index is zero, and what is accepted can be counted |
| HpackRepresentation.ZeroIndexRefused | src/http2/hpack/representation.rs:60-68 | an indexed field of index zero is refused by its name, and nothing else is |
| HpackRepresentation.CutIsShort | src/http2/hpack/representation.rs:21-49 | an accepted representation that is cut short anywhere is refused for the octets it lacks |
| HpackRepresentation.IndexedRoundTrip | src/http2/hpack/representation.rs:54-64 | a printed indexed field parses back |
| HpackRepresentation.LiteralRoundTrip | src/http2/hpack/representation.rs:104-149 | a printed literal of each mode, with an indexed or its own name, parses back |
| HpackRepresentation.SizeUpdateRoundTrip | src/http2/hpack/representation.rs:190-197 | a printed size update parses back |
| HpackRepresentation.IndexedOnWire | src/http2/hpack/representation.rs:21-49 | the octets of an indexed field and of a size update: their marks, and how much the first octet holds |
| HpackRepresentation.StringOnWire | src/http2/hpack/string.rs:19-45 | the octets of a string: the Huffman bit, and a length of seven bits |
| HpackRepresentation.LiteralOnWire | src/http2/hpack/encoder.rs:433-450 | the octets of a literal of each mode: its mark, and a name index of six or four bits |
| HpackRepresentation.HuffmanBit | src/http2/hpack/string.rs:53-55 | a parsed string is Huffman coded exactly when its top bit is set |
| HpackContext.PendingSizes.Next | src/http2/hpack/context.rs:19-24 | the next update owed |
| HpackContext.PendingSizes.Advance | src/http2/hpack/context.rs:26-32 | the update just made is no longer owed |
| HpackContext.PendingSizes.QueueInitial | src/http2/hpack/context.rs:34-38 | a table above the limit owes one update |
| HpackContext.PendingSizes.RecordChange | src/http2/hpack/context.rs:40-56 | the least limit since the last update is owed, then the current one if it is greater |
| HpackContext.DrainedWithinTwo | src/http2/hpack/context.rs:18-32 | two updates always leave nothing owed |
| HpackContext.TwoUpdatesDrain | src/http2/hpack/context.rs:18-32 | making the next owed update twice is draining |
| HpackContext.EventKeepsValid | src/http2/hpack/context.rs:104-116 | every event keeps: owed values are within the allowed limit, the last equals it, and with nothing owed the table's maximum is within it |
| HpackContext.StartCoalesces | src/http2/hpack/context.rs:69-86 | a new context owes exactly what brings its table under the limit |
| HpackContext.Coalesces | src/http2/hpack/context.rs:40-56 | after any run of changes, updates and insertions, making the updates owed leaves the table that immediate changes would have left |
| HpackSession.EncodeKeepsValid | src/http2/hpack/encoder.rs:228-406 | an accepted call keeps the state consistent and the allowed limit as it was |
| HpackSession.DecodeKeepsValid | src/http2/hpack/decoder.rs:224-351 | whatever the input, decoding keeps the state consistent, and the late table update never fails |
| HpackSession.DecodeConsumes | src/http2/hpack/decoder.rs:224-351 | every step but completion consumes octets |
| HpackSession.Lookup | src/http2/hpack/decoder.rs:354-371 | the entry at a combined index: static entries first, then the newest dynamic ones |
| HpackSession.ResolveMeaning | src/http2/hpack/decoder.rs:354-371 | index 62 is the newest entry, an insertion moves the others up by one, and 1 to 61 are the static ones |
| HpackSession.EncodedMeaning | src/http2/hpack/encoder.rs:228-406 | what an accepted command requires and does: only incremental indexing touches the table, which then holds the field as its newest entry; an update is the one that is owed, leads the block and resizes the table |
| HpackSession.EncodeRefused | src/http2/hpack/encoder.rs:228-406 | every refusal of a command names a fault that is there, and the room that is asked for is enough |
| HpackSession.DecodedMeaning | src/http2/hpack/decoder.rs:224-351 | what a decoded step was read from and does: the field its representation stands for, the same effect on the table, and the rest of the input |
| HpackSession.DecodeRefused | src/http2/hpack/decoder.rs:224-351 | every refusal of a step names a fault that is there |
| HpackSession.OutputNeeded | src/http2/hpack/decoder.rs:275-322 | the output that is asked for is the length of the field |
| HpackEncoder.HpackEncoderContext.Create | src/http2/hpack/context.rs:69-86 | a context over any table, or the capacity error |
| HpackEncoder.HpackEncoderContext.SetAllowedMaximumSize | src/http2/hpack/context.rs:104-116 | records a changed limit, or changes nothing beyond capacity |
| HpackEncoder.HpackEncoderContext.BeginBlock | src/http2/hpack/context.rs:119-125 | a block over the context's state, with no field emitted yet |
| HpackEncoder.StringLen | src/http2/hpack/encoder.rs:452-460 | the length of a string literal, or none when it is not a machine integer |
| HpackEncoder.WriteString | src/http2/hpack/encoder.rs:462-478 | writes one string literal, Huffman coded or not, and nothing else |
| HpackEncoder.HpackBlockEncoder.EncodeIndexedField | src/http2/hpack/encoder.rs:228-244 | the call does the encoding step, or on an error nothing at all |
| HpackEncoder.HpackBlockEncoder.EncodeLiteralWithHuffman | src/http2/hpack/encoder.rs:260-361 | the call does the encoding step: octets at the front of the destination and the table updated, or nothing at all |
| HpackEncoder.HpackBlockEncoder.EncodeDynamicTableSizeUpdate | src/http2/hpack/encoder.rs:364-406 | the call does the encoding step for a size update, or nothing at all |
| HpackEncoder.HpackBlockEncoder.Finish | src/http2/hpack/encoder.rs:409-415 | succeeds exactly when no update is owed |
| HpackDecoder.HpackDecoderContext.Create | src/http2/hpack/context.rs:142-159 | a context over any table, or the capacity error |
| HpackDecoder.HpackDecoderContext.SetAllowedMaximumSize | src/http2/hpack/context.rs:177-189 | records a changed limit, or changes nothing beyond capacity |
| HpackDecoder.HpackDecoderContext.DecodeBlock | src/http2/hpack/context.rs:192-202 | a block decoder over the context's state and the given octets |
| HpackDecoder.HuffmanDecode | src/http2/hpack/huffman.rs:104-113 | decodes into the given range, or writes nothing |
| HpackDecoder.WriteText | src/http2/hpack/decoder.rs:411-430 | writes a measured string; the Huffman decoder's late errors cannot happen |
| HpackDecoder.HpackBlockDecoder.ApplySizeUpdate | src/http2/hpack/decoder.rs:237-268 | does the step for a size update; the table's late refusal cannot happen |
| HpackDecoder.HpackBlockDecoder.ReadIndexed | src/http2/hpack/decoder.rs:269-297 | does the step for an indexed field |
| HpackDecoder.HpackBlockDecoder.ReadLiteral | src/http2/hpack/decoder.rs:298-350 | does the step for a literal field |
| HpackDecoder.HpackBlockDecoder.MeasureField | src/http2/hpack/decoder.rs:309-333 | everything that can stop a literal is found before the first write |
| HpackDecoder.HpackBlockDecoder.DecodeNext | src/http2/hpack/decoder.rs:224-351 | the call does the decoding step; on an error the table, owed updates, remaining input, flag and output are unchanged |
| HpackLockstep.StepLockstep | src/http2/hpack/decoder.rs:224-351 | an accepted command, followed by anything, decodes to the same field or update, the same next state and exactly the rest |
| HpackLockstep.LiteralShape | src/http2/hpack/encoder.rs:260-362 | a literal is written with the mode, name form and codings that were asked for |
| HpackLockstep.BlockLockstep | src/http2/hpack/decoder.rs:224-371 | a block decodes to its steps in order and completes exactly when nothing is owed |
| HpackLockstep.RunLockstep | src/http2/hpack/encoder.rs:228-415 | lockstep over whole runs, as described above |
| HpackLockstep.LimitRefused | src/http2/hpack/context.rs:104-116 | a limit beyond the decoder's storage changes nothing |
| HpackLockstep.RfcIsStandard | src/rfc7541_huffman.rs:1-259 | the constants of the RFC meet what the runs ask of them |
| QpackInstructions.InstructionRoundTrip | src/qpack/stream/decoder.rs:27-53 | a built instruction, followed by anything, parses back, and the three kinds are told apart |
| QpackInstructions.BuildInstruction | src/qpack/stream/decoder/builder.rs:68-80 | writes one instruction at the front of the buffer, or nothing for an operand or a buffer that does not fit |
| QpackInstructions.ValidateSequence | src/qpack/stream/decoder.rs:162-170 | the validation loop accepts exactly the sequences that parse, and reports the first malformed offset |
| QpackInstructions.PrintedThenParsed | src/qpack/stream/decoder.rs:162-170 | instructions printed one after another are read back in order |
| QpackInstructions.InstructionOnWire | src/qpack/stream/decoder.rs:27-53 | the octets of each instruction: its mark, and an operand of seven or six bits |
| QpackInstructions.InstructionRead | src/qpack/stream/decoder.rs:27-53 | an accepted instruction is its mark and an integer of at most 62 bits behind it |
| QpackInstructions.InstructionRefused | src/qpack/stream/decoder.rs:27-53 | every refusal names the instruction by its mark and the fault of its operand |
| QpackAccounting.RegistrationExact | src/qpack/state/encoder.rs:385-477 | a section is registered exactly when its count is one more than its largest reference, that entry is inserted, and every limit still holds afterwards |
| QpackAccounting.BlockedCheckExact | src/qpack/state/encoder.rs:452-467 | the check made before a section is added decides the number of blocked streams after it |
| QpackAccounting.RegistrationRefused | src/qpack/state/encoder.rs:385-477 | every refusal of a registration names a fault that is there |
| QpackAccounting.BlockedMeaning | src/qpack/state/encoder.rs:347-364 | a stream may block exactly when one of its sections requires more than is confirmed |
| QpackAccounting.ApplyKeepsAccounted | src/qpack/state/encoder.rs:483-547 | every accepted instruction keeps the limits and never lowers the Known Received Count |
| QpackAccounting.ApplyAllKeepsAccounted | src/qpack/state/encoder.rs:555-572 | so does every sequence, up to its first failure |
| QpackAccounting.ApplyMeaning | src/qpack/state/encoder.rs:483-547 | an acknowledgment removes the oldest section of its stream and confirms its count; a cancellation removes every section of its stream; an increment confirms that many more, within the inserts made |
| QpackAccounting.ApplyRefused | src/qpack/state/encoder.rs:483-547 | each refusal exactly when its fault is there |
| QpackAccounting.WithoutRemoved | src/qpack/state/encoder.rs:504-514 | removing a stream's sections one at a time is filtering them out |
| QpackAccounting.EvictableStays | src/qpack/state/encoder.rs:592-595 | accepted feedback never takes back a permission to evict |
| QpackAccounting.EvictableExact | src/qpack/state/encoder.rs:592-595 | evictable exactly when confirmed and named by no outstanding section |
| QpackEncoderState.ReferencesRemoved | src/qpack/state/encoder.rs:576-588 | moving the later references down and clearing the end packs the remaining sections |
| QpackEncoderState.SlotsRemoved | src/qpack/state/encoder.rs:579-587 | moving the rebased slots down and clearing the last packs the remaining sections |
| QpackEncoderState.PackedSnoc | src/qpack/state/encoder.rs:274-283 | writing behind both packed regions packs one more section |
| QpackEncoderState.QpackEncoderState.constructor | src/qpack/state/encoder.rs:290-309 | nothing outstanding, and both buffers cleared |
| QpackEncoderState.QpackEncoderState.LargestReference | src/qpack/state/encoder.rs:412-417 | the running maximum is the largest reference |
| QpackEncoderState.QpackEncoderState.RisksBlocking | src/qpack/state/encoder.rs:453-457 | whether one of the first sections of a stream is above the Known Received Count |
| QpackEncoderState.QpackEncoderState.BlockedStreamCount | src/qpack/state/encoder.rs:347-360 | the nested loops count the distinct streams with a section above the Known Received Count |
| QpackEncoderState.QpackEncoderState.ReserveRegistration | src/qpack/state/encoder.rs:385-477 | the checks in their order, with nothing changed |
| QpackEncoderState.QpackEncoderState.Commit | src/qpack/state/encoder.rs:269-285 | appends the section; both buffers stay exactly packed, with cleared slots behind |
| QpackEncoderState.QpackEncoderState.Register | src/qpack/state/encoder.rs:367-382 | appends the section or leaves the state and both buffers unchanged |
| QpackEncoderState.QpackEncoderState.RemoveSection | src/qpack/state/encoder.rs:574-589 | removes one section; both buffers stay exactly packed, with cleared slots behind |
| QpackEncoderState.QpackEncoderState.Apply | src/qpack/state/encoder.rs:483-547 | acknowledgment removes the oldest section of the stream, cancellation filters, increment advances; an error changes nothing |
| QpackEncoderState.QpackEncoderState.ApplySequence | src/qpack/state/encoder.rs:555-572 | nothing for a malformed sequence, otherwise everything before the first failure and its offset; parsing again never fails |
| QpackEncoderState.QpackEncoderState.IsEvictable | src/qpack/state/encoder.rs:592-595 | true exactly when the entry is confirmed and no outstanding section names it |
| QpackDecoderState.QpackDecoderState.AcknowledgeFieldSection | src/qpack/state/decoder.rs:47-63 | acknowledges a section with dynamic references and advances to its count, or changes nothing |
| QpackDecoderState.QpackDecoderState.CancelStream | src/qpack/state/decoder.rs:69-77 | writes a cancellation and never moves the count |
| QpackDecoderState.QpackDecoderState.EmitInsertCountIncrement | src/qpack/state/decoder.rs:85-115 | reports at most the largest integer of what is pending; advancing never overflows or passes the insert count |
| QpackDecoderState.IncrementsReach | src/qpack/state/decoder.rs:99-113 | repeated increments are representable, add up exactly, and are as few as the ceiling allows |
| QpackDecoderState.FiveIncrementsSuffice | src/qpack/state/decoder.rs:99-113 | from any count to any other, five increments are enough |
| QpackBlockedStreams.FreeRecord | src/qpack/state/blocked.rs:194-206 | fewer streams than records leaves a free record, so the last error is unreachable |
| QpackBlockedStreams.Rewritten | src/qpack/state/blocked.rs:180-203 | writing one record is removing and adding a stream of the map |
| QpackBlockedStreams.RegisteredMeaning | src/qpack/state/blocked.rs:175-207 | refused exactly when one more stream would pass the maximum; otherwise a stream is blocked afterwards exactly when it was or its new section is |
| QpackBlockedStreams.ReadyPartition | src/qpack/state/blocked.rs:222-248 | at any insert count a registered stream is either blocked or yielded exactly once |
| QpackBlockedStreams.QpackBlockedStreams.Create | src/qpack/state/blocked.rs:102-133 | cleared records and an empty map, or the storage error with the records unchanged |
| QpackBlockedStreams.QpackBlockedStreams.Contains | src/qpack/state/blocked.rs:156-160 | whether the map has the stream |
| QpackBlockedStreams.QpackBlockedStreams.IsBlocked | src/qpack/state/blocked.rs:163-169 | whether the map's count is above the insert count |
| QpackBlockedStreams.QpackBlockedStreams.Register | src/qpack/state/blocked.rs:175-207 | keeps the greatest count of a known stream, admits a new one below the maximum, or changes nothing |
| QpackBlockedStreams.QpackBlockedStreams.Remove | src/qpack/state/blocked.rs:210-219 | takes the stream out of the map and says whether it was there |
| QpackBlockedStreams.QpackBlockedStreams.ReadyStreams | src/qpack/state/blocked.rs:222-248 | the iteration starts over all records, at the given insert count |
| QpackBlockedStreams.QpackReadyBlockedStreamIter.Next | src/qpack/state/blocked.rs:240-248 | yields the ready records in storage order, then nothing for ever |
| QpackProtocol.AgreesAppend | src/qpack/state/encoder.rs:483-547 | a section registered while feedback is on its way survives it, unless that feedback cancels its stream |
| QpackProtocol.AgreesFeed | src/qpack/state/encoder.rs:555-572 | applying the first messages as one sequence does not fail and leaves the rest in agreement |
| QpackSafety.ChangeKeepsInv | src/qpack/state/encoder.rs:592-595 | dropping only evictable entries keeps every outstanding reference live |
| QpackSafety.SendKeepsInv | src/qpack/state/encoder.rs:367-382 | registering and sending a section keeps the agreement of both sides |
| QpackSafety.SendMeaning | src/qpack/state/encoder.rs:367-382 | a section that is sent is accounted for and on its way exactly when every limit still holds, and else leaves no trace |
| QpackSafety.DecodeKeepsInv | src/qpack/state/decoder.rs:47-63 | decoding and acknowledging the next section of a stream keeps it |
| QpackSafety.UnreferencedKeepsAll | src/qpack/state/decoder.rs:47-63 | decoding a section without dynamic references changes nothing between the two sides |
| QpackSafety.CancelKeepsInv | src/qpack/state/decoder.rs:69-77 | cancelling a stream keeps it |
| QpackSafety.ReportKeepsInv | src/qpack/state/decoder.rs:85-115 | reporting inserts keeps it |
| QpackSafety.FeedKeepsInv | src/qpack/state/encoder.rs:555-572 | hearing feedback, as octets, keeps it and is never rejected |
| QpackSafety.RejectedMeaning | src/qpack/state/encoder.rs:555-572 | feedback counts as rejected when its octets are no instructions or one of them cannot be applied |
| QpackSafety.StepKeepsInv | src/qpack/state/encoder.rs:483-547 | every step of either endpoint keeps the invariant |
| QpackSafety.UndecodedIsOutstanding | src/qpack/state/encoder.rs:592-595 | a section that may still be decoded is still accounted for at the encoder |
| QpackSafety.RunIsSafe | src/qpack/state/encoder.rs:385-477 | safety after any interleaving of steps, as described above |
| QpackSafety.RunFeedbackAgrees | src/qpack/state/decoder.rs:47-115 | hearing a prefix of the feedback gives the decoder's count at its emission |
| QpackSafety.WaitingFits | src/qpack/state/blocked.rs:175-207 | the decoder's record of waiting streams always has room for a section of such an encoder |
| QpackSettling.RunCanSettle | src/qpack/state/encoder.rs:483-595 | from every reachable state the endpoints can go on, the encoder sending and inserting nothing, until nothing is outstanding, the tables are the same and every entry may be evicted |
| InternetChecksum.Fold | src/internet_checksum.rs:18-23 | folding the carries gives the one's-complement representative |
| InternetChecksum.AddBytes | src/internet_checksum.rs:5-15 | adding octets adds their words modulo 65535; only the first addition could overflow, and its fitting is all that is required |
| InternetChecksum.WordsConcat | src/internet_checksum.rs:5-15 | pieces of even length may be summed separately |
| InternetChecksum.ReduceThenAdd | src/internet_checksum.rs:5-23 | adding after folding is adding before folding |
| InternetChecksum.AddPseudoheader | src/internet_checksum.rs:49-79 | summing the pseudoheader's pieces is summing its octets, for IPv4 and IPv6 |
| InternetChecksum.CoveredMeaning | src/internet_checksum.rs:49-79 | what is covered sums to the words of both addresses, the protocol, the length and the message |
| InternetChecksum.Rfc1071Example | src/internet_checksum.rs:5-45 | the example of RFC 1071 section 3 |
| TransportChecksum.VerifiesExact | src/tcp/checksum.rs:56-62 | verification accepts exactly the messages whose covered words are a multiple of 65535 |
| TransportChecksum.WrittenVerifies | src/udp/checksum.rs:66-72 | what a sender writes verifies for every payload and address, and for UDP is never zero |
| TransportChecksum.WrittenMeaning | src/udp/checksum.rs:66-72 | the field and the sum around it make all ones, but for the zero that UDP does not send |
| TransportChecksum.ChangedWordCaught | src/tcp/checksum.rs:56-62 | after a change of one word, verification fails unless the two zeros were exchanged |
| TransportChecksum.ChangedAddressCaught | src/internet_checksum.rs:49-79 | after a change of one word of either address, verification fails unless the two zeros were exchanged |
| TransportChecksum.SwappedAddressesUnseen | src/internet_checksum.rs:49-79 | the sum does not tell the two addresses apart |
| TransportChecksum.ChangedDatagram | src/udp/checksum.rs:50-114 | what a received datagram's status becomes when one word other than its length changes: absent exactly when the field becomes zero, valid exactly when nothing changed or two zeros were exchanged outside the field |
| TransportChecksum.ChangedLength | src/udp/datagram.rs:130-151 | what becomes of it when its length changes: refused below a header and beyond the buffer, otherwise valid exactly when twice the change of the length and the change in the sum of the words it bounds come to a multiple of 65535 |
| TransportChecksum.ShorterLengthUnseen | src/udp/datagram.rs:130-151 | a valid datagram that a shorter length makes another valid datagram |
| TransportChecksum.TcpSum | src/tcp/checksum.rs:78-95 | the whole sum over the pseudoheader and the segment, or the length error |
| TransportChecksum.UdpSum | src/udp/checksum.rs:75-87 | the whole sum over the pseudoheader and the datagram |
| TransportChecksum.DatagramLengthExact | src/udp/datagram.rs:130-151 | a buffer holds a datagram of a length exactly when that much is there and its length field says so; otherwise the error, with its numbers |
| TransportChecksum.TcpChecksumIsValid | src/tcp/checksum.rs:56-62 | the receiver's check, or the length error |
| TransportChecksum.UpdateTcpChecksum | src/tcp/checksum.rs:65-74 | rewrites only the field, so that the segment verifies, or only reports the length error |
| TransportChecksum.UdpChecksumStatusV4 | src/udp/checksum.rs:50-63 | absent exactly for a zero field, valid exactly when the covered words are a multiple of 65535 |
| TransportChecksum.UdpChecksumIsValidV6 | src/udp/checksum.rs:106-114 | valid exactly when the field is not zero and the covered words are a multiple of 65535 |
| TransportChecksum.UpdateUdpChecksum | src/udp/checksum.rs:66-72 | rewrites only the field, to a nonzero value that verifies |
| Http1Fields.FindLineEnd | src/http1/fields.rs:159-177 | the scanning loop computes the line end |
| Http1Fields.LineEndExact | src/http1/fields.rs:159-177 | a line ends at the first CR LF with neither octet before it, and only there |
| Http1Fields.LineIncompleteExact | src/http1/fields.rs:159-177 | a line is incomplete exactly when what there is of it could still end well |
| Http1Fields.ParseFields | src/http1/fields.rs:70-99 | the field loop, with trailer restrictions, accepts or reports the first error |
| Http1Fields.FieldsRefused | src/http1/fields.rs:70-99 | a refused section has accepted lines up to a line that is cut short, or at fault |
| Http1Fields.LinesCover | src/http1/fields.rs:70-99 | the accepted lines with their ends are the section again |
| Http1Fields.Http1FieldIter.Next | src/http1/fields.rs:138-151 | yields exactly the accepted lines, each with its colon; it never stops early |
| Http1Fields.FieldLineExact | src/http1/fields.rs:205-243 | a line is accepted exactly when it is a name, a colon and a value, and for trailers the name is not forbidden |
| Http1Fields.TokenExact | src/http1/fields.rs:197-203 | the characters of a token are those of RFC 9110 |
| Http1Fields.ValueOctetExact | src/http1/fields.rs:222-226 | the characters of a value are those of RFC 9110 |
| Http1Fields.EqAsciiCaseExact | src/http1/fields.rs:189-195 | names are the same exactly when they agree letter by letter, whatever the case |
| Http1Fields.ForbiddenNames | src/http1/fields.rs:228-243 | the five names are forbidden in trailers in any case |
| Http1Extensions.SkipOws | src/http1/chunked.rs:246-250 | skips exactly the spaces and tabs |
| Http1Extensions.ParseToken | src/http1/chunked.rs:205-214 | a token ends behind its last token octet, and there is none exactly when none begins here |
| Http1Extensions.ParseTokenOrQuoted | src/http1/chunked.rs:216-244 | ends exactly behind a whole written value, a token or a quoted string with escapes, or there is no such value |
| Http1Extensions.ValueExact | src/http1/chunked.rs:216-244 | a value ends here exactly when a quoted string, or a whole run of token octets, is written up to here |
| Http1Extensions.ValidateChunkExtensions | src/http1/chunked.rs:178-203 | accepts exactly the extensions that can be written, with optional whitespace behind the last |
| Http1Extensions.ExtensionsExact | src/http1/chunked.rs:178-203 | the same of the function that the loop computes |
| Http1Extensions.CharactersExact | src/http1/chunked.rs:216-250 | the characters of quoted strings and of whitespace, and the marks around them |
| Http1ChunkLine.ParseChunkLine | src/http1/chunked.rs:157-176 | the checked digit loop overflows exactly when the whole number does not fit |
| Http1ChunkLine.ChunkLineExact | src/http1/chunked.rs:157-176 | a line is read to a size and extensions exactly when hexadecimal digits of that size, and those extensions, write it |
| Http1ChunkLine.HexMeaning | src/http1/chunked.rs:274-281 | each of the sixteen digits, in either case, has the value of its place |
| Http1ChunkLine.HexOnly | src/http1/chunked.rs:274-281 | nothing else is a digit |
| Http1ChunkLine.HexReadBack | src/http1/chunked.rs:157-165 | a number written in hexadecimal is read back |
| Http1ChunkLine.HexIgnoresCase | src/http1/chunked.rs:274-281 | upper and lower case write the same number |
| Http1ChunkLine.SizeReadBack | src/http1/chunked.rs:157-176 | a line that writes a size is read to it, and to an overflow when it does not fit a machine word |
| Http1ChunkLine.ZeroExact | src/http1/chunked.rs:157-176 | digits write zero, and so end the chunks, exactly when all of them are zeros |
| Http1ChunkLine.StrictLineExact | src/http1/chunked.rs:178-203 | a line is of section 7.1 of RFC 9112 exactly when it is accepted and does not end in whitespace |
| Http1ChunkLine.TrailingSpaceAccepted | src/http1/chunked.rs:189-201 | a line with a space behind its extension is accepted, and section 7.1 does not write it |
| Http1Chunked.Parse | src/http1/chunked.rs:46-94 | the body loop, with every overflow check in its order, computes the specification parser |
| Http1Chunked.ParseTrailers | src/http1/chunked.rs:54-69 | the trailer loop finds the blank line and checks the fields before it |
| Http1Chunked.ChunkAtExact | src/http1/chunked.rs:135-149 | a chunk is a line that gives a size above zero, that many octets, and CR LF |
| Http1Chunked.AppendKeepsBody | src/http1/chunked.rs:46-94 | appending octets never changes an accepted result |
| Http1Chunked.PrefixIsIncomplete | src/http1/chunked.rs:46-94 | every strict prefix of an accepted body is incomplete, and no other error |
| Http1Chunked.RefusedAt | src/http1/chunked.rs:46-94 | every refusal of a body names a fault that is there, and every chunk in front of the fault is whole |
| Http1Chunked.AcceptedIsChunked | src/http1/chunked.rs:135-150 | what stands before the last chunk is chunks, and their data adds up to the decoded length |
| Http1Chunked.Http1Chunks.Next | src/http1/chunked.rs:135-150 | yields exactly the chunks of the accepted body; parsing them again never fails |
| Http1ChunkedGrammar.WrittenAccepted | src/http1/chunked.rs:46-94 | a body the grammar writes, anywhere in a text, is accepted with its extent, decoded length, last extensions and trailers |
| Http1ChunkedGrammar.AcceptedWritten | src/http1/chunked.rs:46-94 | every accepted body is written from digits, extensions, data and trailers |
| Http1ChunkedGrammar.AcceptExact | src/http1/chunked.rs:46-94 | accepted exactly when the input begins with a body that can be written |
| Http1ChunkedGrammar.RoundTrip | src/http1/chunked.rs:46-150 | a written body, followed by anything, is read back, and the iterator finds its chunks |
| Http1ChunkedGrammar.TightExact | src/http1/chunked.rs:135-203 | a written body is of section 7.1 exactly when no extensions in its parse end in whitespace |
| Http1ChunkedGrammar.StrictExact | src/http1/chunked.rs:46-203 | an input begins with a body of section 7.1 exactly when it is accepted and no extensions in its parse end in whitespace |
| Http1ChunkedGrammar.TrailingSpaceBody | src/http1/chunked.rs:189-201 | an accepted body that section 7.1 does not write |
| Http2Frame.FrameRoundTrip | src/http2/frame.rs:58-63 | a frame, followed by anything, parses back to itself |
| Http2Frame.FrameHeader | src/http2/frame.rs:66-95 | a built frame has the type, flags, stream and payload it was given |
| Http2Frame.HeaderOnWire | src/http2/builder/raw.rs:36-44 | the order of the header octets |
| Http2Frame.ParseFrameExact | src/http2/frame.rs:165-187 | a frame is found exactly when the input begins with one that fits the maximum |
| Http2Frame.ParseFrameRefused | src/http2/frame.rs:165-187 | every refusal names a fault that is there, and how much is missing |
| Http2Frame.Fragment.AcceptableExact | src/http2/builder/data.rs:131-343 | a request is refused exactly for a flag that belongs to the layout or a stream that is zero or reserved, by its name |
| Http2Frame.Fragment.RefusedExact | src/http2/builder/data.rs:131-343 | an acceptable request is refused exactly for a payload over the caller's limit or over 24 bits |
| Http2Frame.Fragment.TypeAndFlags | src/http2/builder/data.rs:131-332 | the type octet and the flags octet of a built frame |
| Http2Fragments.WriteEnvelope | src/http2/builder/raw.rs:10-46 | checks the payload and buffer sizes and writes the frame header, or writes nothing |
| Http2Fragments.BuildFragment | src/http2/builder/data.rs:131-332 | the HEADERS, PUSH_PROMISE and CONTINUATION builders: the checks in their order, then the whole frame, whose parse is the returned view |
| Http2Fragments.BuiltParses | src/http2/headers.rs:41-219 | a built fragment parses to its view, with the block it was given, whatever the padding and priority |
| Http2Fragments.HeadersExact | src/http2/headers.rs:41-71 | a HEADERS frame is accepted exactly when its payload can be laid out as its flags say, to the view of that layout |
| Http2Fragments.PushPromiseExact | src/http2/headers.rs:135-166 | the same of PUSH_PROMISE |
| Http2Fragments.ContinuationExact | src/http2/headers.rs:200-235 | a CONTINUATION frame is all block |
| Http2Fragments.BlockLaidOut | src/http2/headers.rs:84-86 | the block of a view is the block of the layout |
| Http2Fragments.FragmentRefused | src/http2/headers.rs:41-219 | every refusal of a fragment names a fault that is there |
| Http2Sequence.Http2HeaderBlockSequence.Observe | src/http2/sequence.rs:48-88 | observes one frame, and on an error leaves the state as it was |
| Http2Sequence.Http2HeaderBlockSequence.ObserveOpen | src/http2/sequence.rs:90-119 | the same while a block is open |
| Http2Sequence.ObservedMeaning | src/http2/sequence.rs:48-119 | an accepted frame is of no concern to an idle sequence, or the fragment that it parses to, on the stream that is open |
| Http2Sequence.ObserveRefused | src/http2/sequence.rs:48-119 | every refusal of a frame names a fault that is there |
| Http2Sequence.GrammarAccepted | src/http2/sequence.rs:48-119 | everything the grammar of section 6.10 writes is accepted |
| Http2Sequence.AcceptedGrammar | src/http2/sequence.rs:48-119 | everything accepted is written by the grammar, in the state the machine is in |
| Http2Sequence.AcceptExact | src/http2/sequence.rs:48-119 | a trace is accepted exactly when it is of the grammar, and idle exactly when no block is open |
| Http2Sequence.FragmentationRoundTrip | src/http2/sequence.rs:48-119 | any split of a block, built, parsed and observed, is accepted and joins to the block |
| Http3ContentLength.ParseDecimal | src/http3/content.rs:551-572 | the checked digit loop computes the number, or the overflow of the whole number |
| Http3ContentLength.DecimalReadBack | src/http3/content.rs:551-572 | a number written in decimal is read back |
| Http3ContentLength.DigitExact | src/http3/content.rs:551-572 | the digits are those from 0 to 9 |
| Http3ContentLength.TrimOws | src/http3/content.rs:575-583 | the two loops leave what stands between whitespace, and it neither begins nor ends in whitespace |
| Http3ContentLength.TrimExact | src/http3/content.rs:575-583 | what is left is the only such value |
| Http3ContentLength.MembersExact | src/http3/content.rs:524-549 | the members of a value are exactly those without commas that make it up, with commas between them |
| Http3ContentLength.WritesExact | src/http3/content.rs:551-583 | a number is read from a member exactly when the member is digits of it between optional whitespace |
| Http3ContentLength.ParseContentLength | src/http3/content.rs:524-549 | the loops over fields and members compute the specification |
| Http3ContentLength.ContentLengthExact | src/http3/content.rs:524-549 | a number is declared exactly when there is a member and every member writes it; none exactly when there is no field |
| Http3ContentLength.LengthRefused | src/http3/content.rs:524-572 | refused for the first member that is no number, is too large or contradicts one before it; all before it write one number |
| Http3ContentLength.FirstContentLength | src/http3/content.rs:516-521 | the first field of that name, or none exactly when there is none |
| Http3Message.Http3MessageContentState.AcceptInitialHeaders | src/http3/content.rs:298-492 | the phase, declared length and disposition of a request or response section, or no change |
| Http3Message.Http3MessageContentState.ReceiveData | src/http3/content.rs:312-350 | counts one payload, or changes nothing |
| Http3Message.Http3MessageContentState.AcceptTrailerSection | src/http3/content.rs:353-380 | ends the content when its length matches, or changes nothing |
| Http3Message.StepAccounted | src/http3/content.rs:298-504 | what every accepted event keeps and adds |
| Http3Message.ReceivedIsData | src/http3/content.rs:312-350 | over every run the received length is the data of the accepted frames, and within the declared length while content may follow |
| Http3Message.FinishIsExact | src/http3/content.rs:383-391 | once content may follow, finishing succeeds exactly when nothing was declared or exactly that much was received |
| Http3Message.FinalResponseMeaning | src/http3/content.rs:440-492 | after a final response, content is refused exactly in a tunnel and for bodiless responses, and trailers exactly after 204 |
| Http3Message.BodilessStaysEmpty | src/http3/content.rs:312-350 | however the run goes on, a bodiless message has received nothing |
| Http3Message.StatusInRange | src/http3/content.rs:585-599 | a validated status is read without wrapping around |
| Http3Message.StatusIsNumber | src/http3/content.rs:585-599 | a validated status is the number that the first status field writes |
| Http3Message.RequestMeaning | src/http3/content.rs:393-419 | a request opens a tunnel exactly when it is a CONNECT, and else content of the length it declares |
| Http3Message.InformationalMeaning | src/http3/content.rs:421-438 | an informational response changes nothing, and may not declare a length |
| Http3Message.DeclaredRefused | src/http3/content.rs:440-456 | a response that must not declare a length is refused when it does |
| Http3Message.HeadersRefused | src/http3/content.rs:298-492 | every refusal of a header section names a fault that is there |
| Http3Message.ContentRefused | src/http3/content.rs:312-350 | every refusal of a payload names a fault that is there |
| Http3Message.TrailersMeaning | src/http3/content.rs:353-380 | accepted trailers follow content that is complete, and declare no length |
| Http3Message.TrailersRefused | src/http3/content.rs:353-380 | every refusal of trailers names a fault that is there |
| Http3Message.FinishRefused | src/http3/content.rs:383-391 | finishing fails exactly without headers or with content other than declared |
| Http3Message.VerdictMeaning | src/http3/stream/message.rs:169-213 | each frame type by its number: where it is expected, and what it is to the caller |
| Http3Message.Http3MessageStreamState.Receive | src/http3/stream/message.rs:169-213 | which frames are expected at each position, without changing it |
| Http3Message.Http3MessageStreamState.Accept | src/http3/stream/message.rs:259-268 | moves to the next position, or stays on an invalid section |
| Http3Message.RestExact | src/http3/stream/message.rs:169-213 | at the content position exactly DATA frames and then possibly trailers are accepted, with ignorable frames anywhere |
| Http3Message.RunOfCarried | src/http3/stream/message.rs:169-213 | frames of every type: a run is the run of its HEADERS and DATA frames, and fails if one is malformed or another is not ignorable |
| Http3Message.MessageOrderExact | src/http3/stream/message.rs:169-307 | a run of frames is a whole message exactly when its headers and data have the order of section 4.1 and are well formed, and every other frame is ignorable |
| Http3Message.CarriedRoundTrip | src/http3/stream/message.rs:169-307 | content and sections put into frames are what the frames carry, in order |
| Http3Message.ContentWithinStream | src/http3/stream/message.rs:270-307 | frames whose headers and data content accounting accepts, with ignorable frames among them, are accepted by the stream machine, at the corresponding position and end |

## Left out

- Machine words: `usize` and `u64` are taken as 64 bits, so conversions between them that the code checks cannot fail here; slices are at most `isize::MAX` octets, as Rust guarantees.
- The contents of the HPACK static table: any 61 fields; only their number and their immutability matter.
- `HpackBlockEncoder::encode_literal`: it is `EncodeLiteralWithHuffman` with both choices off.
- The representation views that the HPACK encoder returns: the model returns the number of octets written and states which octets they are.
- Borrowing and lifetimes: a QPACK reservation holds the state until it is committed, which the model states as `Reserved`; that buffers given to one call are distinct is a precondition.
- QPACK field sections and dynamic tables: a table is a window of live indices that its messages move, and a section is its stream, its count and its references. Sections without dynamic references have no entry to account for, so only their decoding is a step.
- QPACK strings, encoder-stream instructions, field lines and section prefixes.
- HTTP/2 DATA and raw frame builders, the client preface, in-place payload access, and every frame type that is not part of a header block.
- The three HTTP/2 fragment builders are one method over a request with one case for each; their checks, order and octets are those of the three.
- HTTP/1 field accessors, request and status lines, and the builders; field semantics beyond what the trailer check looks at.
- HTTP/3 frame payload parsing (a frame is well formed or not), header-section validation (`Validated` states the part of it that is used), tunnels, and error codes.
- Checksums of IPv4 headers, ICMP and everything else that only reads or writes fixed fields.
- Text: every display, error-source and classification helper.

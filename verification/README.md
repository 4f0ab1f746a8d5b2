# Verified models of the vendored protocol code

The application links three pieces of C and C++ whose behaviour is worth pinning down: the nanopb protobuf codec, the
handshake transport of DTLS, and the TLS 1.2-and-below handshake driver with the write path under it (both from
BoringSSL). This project models them in Dafny and proves what they promise. All paths below are relative to the root of
the repository.

**nanopb** (`Varint`, `PbTypes`, `PbEncode`, `PbDecode`, `PbFold`, `PbRoundTrip`, `PbWire`, `PbMerge`, `PbBounds`,
`PbStreams`, `PbIter`, `PbEncoder`, `PbDecoder`, `PbCodec`). A descriptor is a tree of fields and a struct is a tree of
values. `PbEncode` and `PbDecode` say what an encoding is and what decoding does to a struct, as functions; `PbStreams`,
`PbIter`, `PbEncoder` and `PbDecoder` are the code itself, loops over streams, the circular iterator and the mask of
required fields, each proved to compute what those functions say. On the functions rest the round trip, the fold over
fields, the merge laws and the bounds on everything that decoding can leave in a struct. `PbWire` reads the wire without
looking at values: where fields begin, which tags an encoding holds, what a decoder takes that knows fewer fields, and
what a missing required field means.

**DTLS handshake transport** (`DtlsFragment`, `DtlsReceiver`, `DtlsReplay`, `DtlsSender`, `DtlsPass`, `DtlsFlight`,
`DtlsRun`). Reassembly masks and the ring of seven incoming messages are classes over arrays; the outgoing flight is a
class that cuts messages to the MTU, and `DtlsPass` says as a function what one pass over it sends, loses and leaves,
from what cipher and transport answer. `DtlsRun.Connection` joins both ends by a network that may lose, repeat and
reorder anything ever sent. The replay window is proved against the set of everything accepted.

**TLS write path** (`TlsBuffer`, `TlsWrite`). The write buffer, the pending flight and a transport that may take part of
what it is offered are one queue of sealed bytes.

**Handshake driver** (`HsTranscript`, `HsStages`, `HsEndpoint`, `HsClientStages`, `HsServerStages`, `HsHandshake`,
`HsClient`, `HsServer`, `HsDriver`, `HsAgreement`, `HsPair`). `HsHandshake.Handshake` is the one handshake object of
either side; the methods of `HsClient` and `HsServer` are its states and `HsDriver` runs them. What has been sent,
received, checked and done to the keys by the time a state is entered is a function of the state and of what was decided
(`HsClientStages`, `HsServerStages`). What comes from outside (callbacks, parsers, keys, the transport) answers yes or
no by an arbitrary function, and what it decides is a nondeterministic choice, so what is proved holds whatever it
answers and however often the driver stops and is entered again; a driver fails or goes back to its caller only if it
was refused or got a message its state does not expect. A Finished value and a signature are uninterpreted functions of
the transcript. `HsPair` runs an honest client and server over reliable channels.

**Three small ones**: the choice of a cipher among equally preferred ones (`CipherChoice`), the constant-time choice of
the RSA premaster secret (`Premaster`), and the lock-free reference count against the locked one (`RefCount`). `Bits`
and `Bytes` hold the arithmetic they share.

## What the code does that one might not expect

- A proto3 singular submessage that holds a nonempty array of fixed count is dropped when the array's first bytes are
  zero, because they are read as the array's count (`PbRoundTrip.FixedCountHidden`; exactly when values survive:
  `PbRoundTrip.SingularKept`).
- A text field without a terminator inside its size is encoded but not decoded (`PbRoundTrip.RoundTrip`).
- The 32-bit varint decoder has no bound on length and its bit position wraps modulo 256. Of what it accepts, the 64-bit
  decoder accepts exactly the varints of at most ten bytes (`Varint.DecodersAgree`); `Varint.LongVarints` has an input
  of eleven bytes, and one of 38 in which the value 1 is read as 8. Tag 0 matches the terminator of an empty descriptor.
- A handshake fragment exactly seven messages ahead passes the test that is meant to drop fragments from the future and
  is then refused as an error (`DtlsRun.FragmentRefused`).
- When sealing fails in the middle of a packet, the records sealed before it are lost but the flight's position stays
  behind them; after a failed write the position is restored. A failure to seal loses records exactly when the refused
  record was not the first of its packet (`DtlsPass.LostExactly`), and without refusals and with messages of the last
  two epochs only nothing is lost (`DtlsPass.NothingLost`). In `DtlsFlight.LoseFirst` a message is lost and the next
  flush succeeds without it; a retransmission sends it again.
- A retry of an application write with less data than is already sealed forgets that progress
  (`TlsWrite.TlsWriter.WriteApp` says exactly when progress is kept). What follows depends on the record in flight. With
  none pending, the next correct call seals the same bytes again (`TlsWrite.TlsWriter.ShortRetryRepeats`). With one
  pending, which a blocked transport always leaves, every later call at that address is refused
  (`TlsWrite.TlsWriter.ShortRetryRefused`), unless the buffer may move: then the pending record is reported as the first
  bytes of the data, which it does not hold (`TlsWrite.TlsWriter.ShortRetryMisreports`).
- Lowering max_send_fragment below the size of a pending record makes every correct retry fail, until the limit is
  raised again (`TlsWrite.TlsWriter.LoweredLimitRefused`); it is the only way in which a correct retry is refused as a bad one
  (`TlsWrite.TlsWriter.CorrectIsExcused`).
- The decoder does not compare a known field's wire type with its key. A required field can therefore be found inside
  what the keys call another field (`PbWire.FoundInside`); where the wire types conform it cannot
  (`PbWire.RequiredOnWire`).
- A preference list whose last group has no end yields no cipher even if one in that group is shared
  (`CipherChoice.Choose`).

## Model

| member | source | states |
|---|---|---|
| Varint.RoundTrip | zeenoc/Pods/nanopb/pb_encode.c:574-594 | decoding inverts encoding on every 64-bit value, whatever follows it, in at most ten bytes |
| Varint.EncodeLength | zeenoc/Pods/nanopb/pb_encode.c:574-594 | a value below 2^(7k) is written in at most k groups |
| Varint.Decode32Refines | zeenoc/Pods/nanopb/pb_decode.c:182-270 | on every varint of at most ten bytes that the 32-bit decoder accepts, it returns the low half of the 64-bit result and consumes the same bytes |
| Varint.DecodersAgree | zeenoc/Pods/nanopb/pb_decode.c:182-270 | of the varints the 32-bit decoder accepts, the 64-bit decoder accepts exactly those of at most ten bytes, with the same length and low half |
| Varint.EmptyGroupsWrap | zeenoc/Pods/nanopb/pb_decode.c:212-236 | behind m bytes without payload the 32-bit decoder goes on at bit 7m modulo 256, with no bound on m |
| Varint.LongVarints | zeenoc/Pods/nanopb/pb_decode.c:212-236 | two inputs: ten bytes 0x80 and a 0x00 are accepted by the 32-bit decoder alone, and 37 bytes 0x80 and a 0x01 are read as 8 |
| Varint.Decode32OfEncode | zeenoc/Pods/nanopb/pb_decode.c:182-248 | the 32-bit decoder accepts every canonical encoding below 2^32 |
| Varint.Decode32OfNegative | zeenoc/Pods/nanopb/pb_decode.c:212-236 | it accepts every ten-byte sign-extended negative 32-bit integer and returns its low half |
| Varint.ZigZagBijection | zeenoc/Pods/nanopb/pb_encode.c:596-605 | the shifted word, complemented for a negative value, and the shifted word, complemented for an odd one, undo each other on all 64-bit values, and narrower widths stay narrow |
| Varint.ZigZagValue | zeenoc/Pods/nanopb/pb_encode.c:596-605 | what the shift and the complement yield is 2v, or -2v-1 for a negative v |
| Varint.DigitsStable | zeenoc/Pods/nanopb/pb_decode.c:250-270 | what a varint parses to does not depend on the bytes after it |
| PbStreams.IStream.ReadByte | zeenoc/Pods/nanopb/pb_decode.c:136-152 | one byte or failure; position plus bytes left is conserved |
| PbStreams.IStream.Read | zeenoc/Pods/nanopb/pb_decode.c:85-134 | succeeds exactly when that many bytes are left, returns them, and conserves position plus bytes left |
| PbStreams.IStream.DecodeVarint32 | zeenoc/Pods/nanopb/pb_decode.c:182-248 | the loop with its wrapping bit position computes the specified 32-bit parse of the remaining bytes |
| PbStreams.IStream.DecodeVarint | zeenoc/Pods/nanopb/pb_decode.c:250-270 | the loop with its 64-bit accumulator computes the specified parse of the remaining bytes |
| PbStreams.IStream.SkipVarint | zeenoc/Pods/nanopb/pb_decode.c:273-282 | stops exactly behind the varint |
| PbStreams.IStream.SkipField | zeenoc/Pods/nanopb/pb_decode.c:284-326 | skips exactly the content that the wire type announces, and fails on any other wire type |
| PbStreams.IStream.MakeSubstream | zeenoc/Pods/nanopb/pb_decode.c:367-380 | the substream holds exactly the delimited bytes, and parent and substream together conserve the bytes left |
| PbStreams.IStream.CloseSubstream | zeenoc/Pods/nanopb/pb_decode.c:382-395 | the parent resumes exactly behind the delimited bytes, however much the nested decoder consumed |
| PbStreams.OStream.Write | zeenoc/Pods/nanopb/pb_encode.c:72-119 | writes everything or nothing: it succeeds exactly when there is room, and earlier bytes stay |
| PbStreams.OStream.EncodeVarint | zeenoc/Pods/nanopb/pb_encode.c:574-594 | the ten-byte buffer loop writes the specified encoding |
| PbIter.FieldIter.constructor | zeenoc/Pods/nanopb/pb_common.c:8-18 | at the start the pointers are where the layout put the first field |
| PbIter.FieldIter.Next | zeenoc/Pods/nanopb/pb_common.c:20-76 | advances or wraps, keeping the data pointer at the current field's place and the required index at the number of required fields before it, unions included |
| PbIter.FieldIter.Find | zeenoc/Pods/nanopb/pb_common.c:78-95 | the circular search ends, and finds a field exactly when one has the tag; an empty descriptor's terminator matches tag 0 |
| PbIter.RequiredWithIndex | zeenoc/Pods/nanopb/pb_common.c:65-70 | every index below the count is the index of a required field |
| PbEncode.EncodesIffEncodable | zeenoc/Pods/nanopb/pb_encode.c:126-211 | encoding a typed struct fails exactly when an array count, bytes length or nested struct the encoder looks at is out of bounds, at any depth |
| PbEncode.DefaultsAreSilent | zeenoc/Pods/nanopb/pb_encode.c:215-303 | the defaults of a descriptor encode to nothing exactly if no field is required and no proto3 field is bytes of a fixed nonzero length, at any depth; so a proto3 number that is zero is left out |
| Bytes.LittleEndianBits | zeenoc/Pods/nanopb/pb_encode.c:607-633 | byte i of a fixed-width number holds its bits from 8 * i on, the low byte first |
| PbEncoder.EncodeTag | zeenoc/Pods/nanopb/pb_encode.c:635-639 | writes the tag or fails for lack of room |
| PbEncoder.EncodeString | zeenoc/Pods/nanopb/pb_encode.c:674-680 | writes length and bytes or fails for lack of room |
| PbEncoder.TextLength | zeenoc/Pods/nanopb/pb_encode.c:831-855 | the bounded strlen loop measures the text up to its terminator or its field's size |
| PbEncoder.EncodeScalar | zeenoc/Pods/nanopb/pb_encode.c:734-855 | each scalar field encoder writes its specified encoding or fails |
| PbEncoder.EncodeSubmessage | zeenoc/Pods/nanopb/pb_encode.c:682-730 | sizing pass, length, writing pass: the size-changed branch is unreachable and exactly the prefixed encoding is written |
| PbEncoder.EncodeArrayOn | zeenoc/Pods/nanopb/pb_encode.c:126-211 | packed, unpacked and sizing cases write the specified array or fail |
| PbEncoder.EncodeFieldOn | zeenoc/Pods/nanopb/pb_encode.c:307-392 | the field is written exactly when its rule says it is present |
| PbEncoder.Encode | zeenoc/Pods/nanopb/pb_encode.c:494-516 | succeeds exactly when the struct has an encoding and there is room for it, and then writes exactly that; what stands in it by lengths and wire types alone is PbWire.EncodingOnWire |
| PbEncoder.EncodedSize | zeenoc/Pods/nanopb/pb_encode.c:533-542 | the sizing pass counts exactly the bytes the writing pass emits |
| PbDecoder.MaskSet | zeenoc/Pods/nanopb/pb_decode.c:988-993 | setting a bit of the 32-bit words records exactly that the field was seen |
| PbDecoder.MaskDecides | zeenoc/Pods/nanopb/pb_decode.c:1006-1046 | the final comparison of words passes exactly when each of the first 64 required fields was seen |
| PbDecoder.DecodeScalarOn | zeenoc/Pods/nanopb/pb_decode.c:1289-1461 | each scalar field decoder computes the specified parse and stays within its stream |
| PbDecoder.DecodeValueOn | zeenoc/Pods/nanopb/pb_decode.c:1463-1508 | a nested message is decoded in its own substream, in every recursion on fewer bytes |
| PbDecoder.DecodePackedOn | zeenoc/Pods/nanopb/pb_decode.c:412-446 | the packed loop fills the array until the substream or the array is exhausted, and fails on leftovers |
| PbDecoder.DecodeArrayOn | zeenoc/Pods/nanopb/pb_decode.c:401-475 | packed and unpacked entries are appended within the array's bound |
| PbDecoder.DecodeFieldOn | zeenoc/Pods/nanopb/pb_decode.c:963-997 | fixed-count arrays are filled in order and completed before another is entered |
| PbDecoder.TurnOn | zeenoc/Pods/nanopb/pb_decode.c:919-1005 | one turn of the loop on stream, iterator and mask is one specified step |
| PbDecoder.DecodeMessage | zeenoc/Pods/nanopb/pb_decode.c:901-1049 | the loop over fields succeeds exactly when the specified fold does, with the same struct, and consumes its input; what success means for required fields is PbWire.RequiredDecides |
| PbDecoder.DecodeFresh | zeenoc/Pods/nanopb/pb_decode.c:1051-1063 | the same from the descriptor's defaults |
| PbDecoder.RequiredCount | zeenoc/Pods/nanopb/pb_decode.c:1006-1024 | seeking to the end counts the required fields |
| PbFold.RunConcat | zeenoc/Pods/nanopb/pb_decode.c:917-1005 | decoding is a fold: running over a ++ b is running over a, then over b |
| PbFold.MergeIsConcat | zeenoc/Pods/nanopb/pb_decode.h:70-77 | without fixed-count fields and zero terminators, decoding a and then b into the same struct gives what decoding a ++ b gives |
| PbFold.UnknownFieldIgnored | zeenoc/Pods/nanopb/pb_decode.c:934-961 | a well-formed field with an unknown tag, inserted at any field boundary, changes nothing |
| PbRoundTrip.ArrayRoundTrip | zeenoc/Pods/nanopb/pb_decode.c:401-475 | an encoded repeated, packed or fixed-count array is read back entry for entry, whatever its total length |
| PbRoundTrip.FieldRoundTrip | zeenoc/Pods/nanopb/pb_decode.c:919-997 | what was written for one field takes the decoder from the state before that field to the state after it |
| PbRoundTrip.RoundTrip | zeenoc/Pods/nanopb/pb_encode.c:494-516 | for every well-formed descriptor and typed struct, decoding the encoding gives the struct's normal form if every written text is terminated within its field, and fails otherwise; only packed arrays and nested messages, each by itself, have to be shorter than 2^32 |
| PbRoundTrip.SingularKept | zeenoc/Pods/nanopb/pb_encode.c:215-303 | a proto3 singular field keeps its value exactly when it is written or its type is not a message holding a nonempty fixed-count array |
| PbRoundTrip.FixedCountHidden | zeenoc/Pods/nanopb/pb_encode.c:225-229 | a concrete struct whose fixed-count array is lost, its first entry being read as its count |
| PbWire.SeenExactly | zeenoc/Pods/nanopb/pb_decode.c:963-1005 | a decoder passes each field by what skipping its own type would pass, and the required fields it has seen are exactly those whose tags stand at the boundaries so found |
| PbWire.RequiredDecides | zeenoc/Pods/nanopb/pb_decode.c:1006-1046 | input decodes only if the tag of each of the first 64 required fields stands at a field boundary, found with Varint.Decode32 and Skip and no record of what was seen, and a missing one refuses it; with distinct tags it decodes exactly if besides all fields decode and fixed-count arrays are complete |
| PbWire.RequiredOnWire | zeenoc/Pods/nanopb/pb_decode.c:1006-1046 | where every key has its field's wire type, the boundaries are those the keys alone give, so a required tag missing there refuses the input |
| PbWire.FoundInside | zeenoc/Pods/nanopb/pb_decode.c:401-411 | a concrete input: the wire type of a known field is not looked at, so a required field is found inside what its predecessor's key calls a length-delimited field |
| PbWire.ValueSkips | zeenoc/Pods/nanopb/pb_encode.c:641-672 | whoever skips an encoded value by the wire type in its tag comes out exactly behind it, for every type and whatever follows |
| PbWire.PackedSkips | zeenoc/Pods/nanopb/pb_encode.c:137-176 | the same for a packed array under WT_STRING |
| PbWire.FieldPassed | zeenoc/Pods/nanopb/pb_decode.c:945-960 | what was written for a field that a descriptor does not have leaves its decoder where it was |
| PbWire.EncodingOnWire | zeenoc/Pods/nanopb/pb_encode.c:494-516 | by lengths and wire types alone an encoding holds the tags of what is written, in the order of the descriptor: one per single value, one per array of numbers, one per entry of any other array, each with the wire type its field is read under |
| PbWire.ReadWithFewerFields | zeenoc/Pods/nanopb/pb_decode.c:901-1049 | a descriptor that lacks any of the fields decodes the full encoding to the normal form of the rest, if the texts of the rest are terminated, and otherwise fails |
| PbMerge.OccurrencesMerge | zeenoc/Pods/nanopb/pb_decode.c:1463-1485 | two occurrences of a nested message, both of which decode, are one with the bodies joined |
| PbMerge.LastOccurrenceCounts | zeenoc/Pods/nanopb/pb_decode.c:456-466 | inside a union an occurrence starts from defaults: only the last counts, and the others only have to decode |
| PbCodec.ThroughBuffer | zeenoc/Pods/nanopb/pb_encode.c:533-542 | size, write and read back: the measured size is exactly enough for every struct that has an encoding, and what is read is the normal form exactly when the texts are terminated |
| PbBounds.DecodeFits | zeenoc/Pods/nanopb/pb_decode.c:1289-1461 | whatever bytes are decoded, into whatever struct within its bounds: array counts are at most the array size, texts leave room for their terminator, bytes fit their field, integers their width and which_ tags name a field of their union, at every depth |
| PbBounds.FitsIsSound | zeenoc/Pods/nanopb/pb_encode.c:126-211 | a struct within those bounds is typed and can be encoded, and its texts are terminated |
| PbBounds.Reencoded | zeenoc/Pods/nanopb/pb_decode.c:1051-1063 | whatever was decoded can be encoded again, and decoding that gives the normal form of what was decoded |
| PbBounds.NormalEncodesAlike | zeenoc/Pods/nanopb/pb_encode.c:494-516 | a struct and its normal form have the same encoding |
| PbBounds.RoundTripStable | zeenoc/Pods/nanopb/pb_encode.c:494-516 | from the first re-encoding on, decoding and encoding change nothing any more |
| DtlsFragment.ParseRoundTrip | zeenoc/Pods/BoringSSL-GRPC/ssl/d1_both.cc:459-473 | parsing a fragment inverts writing it, whatever follows |
| DtlsFragment.BitRangeBits | zeenoc/Pods/BoringSSL-GRPC/ssl/d1_both.cc:203-206 | the mask ~((1 << start) - 1) & ((1 << end) - 1), cut to a byte, has exactly the bits from start up to end |
| DtlsFragment.HmFragment.constructor | zeenoc/Pods/BoringSSL-GRPC/ssl/d1_both.cc:152-199 | a new message has nothing received, its header describes the whole message, and an empty one is complete at once |
| DtlsFragment.HmFragment.MarkRange | zeenoc/Pods/BoringSSL-GRPC/ssl/d1_both.cc:226-236 | the mask becomes the union of what it was and the range, byte by byte |
| DtlsFragment.HmFragment.IsFull | zeenoc/Pods/BoringSSL-GRPC/ssl/d1_both.cc:238-250 | whole bytes and the last partial one are full exactly when every position is marked |
| DtlsFragment.HmFragment.Mark | zeenoc/Pods/BoringSSL-GRPC/ssl/d1_both.cc:211-251 | received positions grow by exactly the range, no bit lies beyond the message, and the mask is dropped exactly when every position is covered |
| DtlsFragment.HmFragment.Accept | zeenoc/Pods/BoringSSL-GRPC/ssl/d1_both.cc:399-402 | the fragment's bytes are at their positions, every other byte is as before, and the message is complete exactly when all positions have arrived |
| DtlsReceiver.OpenFragmentInWindow | zeenoc/Pods/BoringSSL-GRPC/ssl/d1_both.cc:265-295 | a fragment leaves every slot in its place within the window |
| DtlsReceiver.AdvanceInWindow | zeenoc/Pods/BoringSSL-GRPC/ssl/d1_both.cc:426-438 | releasing the current message moves the window and leaves nothing behind it |
| DtlsReceiver.SameSlotSameMessage | zeenoc/Pods/BoringSSL-GRPC/ssl/d1_both.cc:265-283 | within the window two sequence numbers that share a slot are equal |
| DtlsReceiver.Receiver.GetIncoming | zeenoc/Pods/BoringSSL-GRPC/ssl/d1_both.cc:265-295 | finds or makes the slot, and refuses a mismatched header or a number outside the window |
| DtlsReceiver.Receiver.ProcessFragment | zeenoc/Pods/BoringSSL-GRPC/ssl/d1_both.cc:352-402 | one turn of the loop does to the ring what the specified step says, errors included |
| DtlsReceiver.Receiver.OpenHandshake | zeenoc/Pods/BoringSSL-GRPC/ssl/d1_both.cc:297-406 | the loop over a record's fragments computes the specified state or error |
| DtlsReceiver.Receiver.GetMessage | zeenoc/Pods/BoringSSL-GRPC/ssl/d1_both.cc:408-424 | hands out the rebuilt header and body exactly when the current message is complete |
| DtlsReceiver.Receiver.NextMessage | zeenoc/Pods/BoringSSL-GRPC/ssl/d1_both.cc:426-438 | frees the slot and advances the 16-bit sequence number, wrapping included |
| DtlsReplay.RecordReader.ShouldDiscard | zeenoc/Pods/BoringSSL-GRPC/ssl/dtls_record.cc:140-153 | discards exactly the numbers that were recorded or are 64 or more behind the highest |
| DtlsReplay.RecordReader.Record | zeenoc/Pods/BoringSSL-GRPC/ssl/dtls_record.cc:155-175 | after any record, bit i of the map is set exactly when the number i below the highest was recorded |
| DtlsReplay.RecordReader.Open | zeenoc/Pods/BoringSSL-GRPC/ssl/dtls_record.cc:225-259 | a record is accepted exactly when its epoch is the current one, it is not discarded and it decrypts; only then is it recorded |
| DtlsReplay.RecordReader.NewEpoch | zeenoc/Pods/BoringSSL-GRPC/ssl/dtls_method.cc:81-95 | the next epoch starts with an empty window |
| DtlsReplay.RecordReader.Run | zeenoc/Pods/BoringSSL-GRPC/ssl/dtls_record.cc:225-259 | over any list of records and key changes the reader accepts exactly what the set of everything accepted allows, and so, before the epoch wraps, no sequence field twice |
| DtlsReplay.NeverTwice | zeenoc/Pods/BoringSSL-GRPC/ssl/dtls_record.cc:225-259 | over any run with key changes, before the epoch wraps, no epoch and sequence number are accepted twice |
| DtlsFlight.Flight.AddMessage | zeenoc/Pods/BoringSSL-GRPC/ssl/d1_both.cc:511-598 | builds the unfragmented message with the next sequence number, discards a completed flight first, and refuses an eighth message |
| DtlsFlight.Flight.AddChangeCipherSpec | zeenoc/Pods/BoringSSL-GRPC/ssl/d1_both.cc:555-602 | adds a ChangeCipherSpec under the current epoch |
| DtlsFlight.Flight.SealNextMessage | zeenoc/Pods/BoringSSL-GRPC/ssl/d1_both.cc:644-734 | the attempt is the specified one: an error, no progress, or the next record and where it leaves the position |
| DtlsFlight.Flight.SealNextPacket | zeenoc/Pods/BoringSSL-GRPC/ssl/d1_both.cc:739-780 | records, position and calls of the cipher are those of the specified packet, and on an error the position stays behind the records sealed before it |
| DtlsFlight.Flight.UpdateMtu | zeenoc/Pods/BoringSSL-GRPC/ssl/d1_both.cc:615-633 | an MTU of at least the minimum is kept, and otherwise the transport's answer is taken where it is in range, else the default |
| DtlsFlight.Flight.SendFlight | zeenoc/Pods/BoringSSL-GRPC/ssl/d1_both.cc:782-827 | datagrams, lost records, position and result are those of the specified pass; so what was written and then what was lost is exactly the pieces between the old position and the new, the position ends where the writing ended exactly when nothing is lost, and a failure to seal loses records exactly when the refused one was not the first of its packet; every datagram fits the answer of a transport that was asked and answered in range, or else the MTU that was set |
| DtlsFlight.Flight.Flush | zeenoc/Pods/BoringSSL-GRPC/ssl/d1_both.cc:829-834 | the same, marking the flight complete |
| DtlsFlight.Flight.Retransmit | zeenoc/Pods/BoringSSL-GRPC/ssl/d1_both.cc:836-845 | a pass that completes carries every body of the flight again, byte for byte, whatever the position was and whatever the MTU is now |
| DtlsFlight.LoseFirst | zeenoc/Pods/BoringSSL-GRPC/ssl/d1_both.cc:744-758 | a concrete flight and cipher: of two messages in one packet the second is refused, the first is sealed and never written, and the next flush succeeds without it |
| DtlsPass.FullMeansSmall | zeenoc/Pods/BoringSSL-GRPC/ssl/d1_both.cc:694-696 | no progress is made exactly when a message that can be sealed finds less room than one body byte needs |
| DtlsPass.NextFollows | zeenoc/Pods/BoringSSL-GRPC/ssl/d1_both.cc:697-733 | the record is the next piece of the flight, never longer than the room, and fills it unless it ends its message |
| DtlsPass.PacketFollows | zeenoc/Pods/BoringSSL-GRPC/ssl/d1_both.cc:739-780 | a packet's records are exactly the next pieces and fit together; it is too small only if not even the first fits |
| DtlsPass.PassFollows | zeenoc/Pods/BoringSSL-GRPC/ssl/d1_both.cc:797-815 | what a pass sends and then loses is exactly the pieces from its start to its end, every datagram fits, and each failure has its cause |
| DtlsPass.LostExactly | zeenoc/Pods/BoringSSL-GRPC/ssl/d1_both.cc:744-758 | in a pass that fails to seal, every record the cipher was called for is on the wire or lost, except the refused one; so something is lost exactly when that was not the first of its packet |
| DtlsPass.NothingLost | zeenoc/Pods/BoringSSL-GRPC/ssl/d1_both.cc:650-656 | with messages of the current and the previous epoch only and a cipher that refuses nothing, nothing is lost |
| DtlsPass.PositionIsWritten | zeenoc/Pods/BoringSSL-GRPC/ssl/d1_both.cc:806-814 | the position ends behind exactly what was written if and only if nothing is lost |
| DtlsPass.SecondRefused | zeenoc/Pods/BoringSSL-GRPC/ssl/d1_both.cc:744-758 | when a packet's second record is refused the first is lost, and nothing is sent |
| DtlsSender.CompletePassTiles | zeenoc/Pods/BoringSSL-GRPC/ssl/d1_both.cc:693-731 | the fragments of a complete pass carry the bodies exactly, in order, with no gap and no overlap |
| DtlsSender.FollowHonest | zeenoc/Pods/BoringSSL-GRPC/ssl/d1_both.cc:702-717 | every record of a flight is a ChangeCipherSpec or a piece of a message that was added |
| DtlsRun.FragmentAgrees | zeenoc/Pods/BoringSSL-GRPC/ssl/d1_both.cc:352-402 | a piece of an added message leaves every slot agreeing byte for byte with what was added |
| DtlsRun.FragmentRefused | zeenoc/Pods/BoringSSL-GRPC/ssl/d1_both.cc:267-271 | an honest fragment is refused exactly when it is longer than allowed, comes encrypted out of turn, or is exactly seven messages ahead |
| DtlsRun.MessageIsRaw | zeenoc/Pods/BoringSSL-GRPC/ssl/d1_both.cc:152-199 | a complete message is, header and body, the unfragmented message the sender hashed |
| DtlsRun.CoveredIsComplete | zeenoc/Pods/BoringSSL-GRPC/ssl/d1_both.cc:238-250 | pieces that cover the next message, in any order and repeated, complete it |
| DtlsRun.Connection.Run | zeenoc/Pods/BoringSSL-GRPC/ssl/d1_both.cc:408-438 | over any run of sends, retransmissions, MTU changes, drops, duplicates and reorderings, the messages taken are the first messages added, byte for byte, before sequence numbers wrap |
| TlsBuffer.SSLBuffer.EnsureCap | zeenoc/Pods/BoringSSL-GRPC/ssl/ssl_buffer.cc:47-81 | fails exactly beyond 0xffff, and otherwise makes the room and keeps the contents |
| TlsBuffer.SSLBuffer.Write | zeenoc/Pods/BoringSSL-GRPC/ssl/ssl_buffer.cc:83-88 | the contents grow by the bytes written |
| TlsBuffer.SSLBuffer.Consume | zeenoc/Pods/BoringSSL-GRPC/ssl/ssl_buffer.cc:90-97 | the contents lose their first bytes |
| TlsBuffer.SSLBuffer.Clear | zeenoc/Pods/BoringSSL-GRPC/ssl/ssl_buffer.cc:39-45 | the buffer is empty |
| TlsWrite.TlsWriter.AddRecord | zeenoc/Pods/BoringSSL-GRPC/ssl/s3_both.cc:135-165 | a record sealed into the flight goes behind everything sealed before, on the wire or not |
| TlsWrite.TlsWriter.AddMessage | zeenoc/Pods/BoringSSL-GRPC/ssl/s3_both.cc:184-205 | the message is cut into handshake records of at most the maximal fragment that together hold exactly its bytes |
| TlsWrite.TlsWriter.FlushBuffer | zeenoc/Pods/BoringSSL-GRPC/ssl/ssl_buffer.cc:239-252 | partial writes keep the one queue; success means an empty buffer |
| TlsWrite.TlsWriter.FlushFlight | zeenoc/Pods/BoringSSL-GRPC/ssl/s3_both.cc:231-279 | after a success everything sealed so far is on the wire, in sealing order; it fails only for a shutdown, a flight over INT_MAX, a transport that took nothing of exactly what it was offered, or a failed flush |
| TlsWrite.TlsWriter.MoveFlight | zeenoc/Pods/BoringSSL-GRPC/ssl/s3_pkt.cc:254-266 | moving the unflushed flight into the write buffer keeps the one queue |
| TlsWrite.TlsWriter.WritePending | zeenoc/Pods/BoringSSL-GRPC/ssl/s3_pkt.cc:202-218 | a mismatched retry is refused, and a flushed record is reported with its length |
| TlsWrite.TlsWriter.DoWrite | zeenoc/Pods/BoringSSL-GRPC/ssl/s3_pkt.cc:221-289 | a record is sealed only when none is pending, and sealed exactly once however often the call is repeated |
| TlsWrite.TlsWriter.WriteApp | zeenoc/Pods/BoringSSL-GRPC/ssl/s3_pkt.cc:129-200 | with correct retries each application byte is sealed exactly once and in order, and the result counts them; every record added holds at most max_send_fragment bytes, and less only where it ends the data; a correct call fails only if the transport took nothing, the cipher refused, now or before, the buffer limit is exceeded, there is nothing left to write, or the limit was lowered below a pending record, never for how much data there is; progress is kept exactly when the data is not shorter than it |
| TlsWrite.TlsWriter.ShortRetryRepeats | zeenoc/Pods/BoringSSL-GRPC/ssl/s3_pkt.cc:143-157 | with no record pending, the next correct call after a retry that is too short seals again what was sealed already |
| TlsWrite.TlsWriter.ShortRetryRefused | zeenoc/Pods/BoringSSL-GRPC/ssl/s3_pkt.cc:202-218 | with a record pending and no moving buffer, after such a retry every later call at that address is refused and nothing more is sealed |
| TlsWrite.TlsWriter.ShortRetryMisreports | zeenoc/Pods/BoringSSL-GRPC/ssl/s3_pkt.cc:202-218 | with a record pending and a moving buffer, the next call reports that record as the first bytes of the data, which it does not hold, and goes on behind them |
| TlsWrite.TlsWriter.LoweredLimitRefused | zeenoc/Pods/BoringSSL-GRPC/ssl/s3_pkt.cc:202-218 | with max_send_fragment lowered below the record that is pending, every correct retry is refused and nothing is sealed or sent |
| TlsWrite.TlsWriter.CorrectIsExcused | zeenoc/Pods/BoringSSL-GRPC/ssl/s3_pkt.cc:129-200 | a retry that repeats its data is refused as a bad retry only if the limit was lowered below the pending record |
| TlsWrite.TlsWriter.SetMaxSendFragment | zeenoc/Pods/BoringSSL-GRPC/ssl/ssl_lib.cc:1664-1674 | the limit is brought into the range from 512 to 16384, and everything else stays |
| TlsWrite.TlsWriter.WriteWithRetries | zeenoc/Pods/BoringSSL-GRPC/ssl/s3_pkt.cc:129-200 | any number of retries with handshake flights in between seals a prefix of the data once, and all of it when all is reported |
| HsTranscript.RunComparable | zeenoc/Pods/BoringSSL-GRPC/ssl/handshake.cc:380-476 | whatever one polite side does in any number of steps, one transcript stays a prefix of the other |
| HsTranscript.ReceivedWasSent | zeenoc/Pods/BoringSSL-GRPC/ssl/handshake.cc:380-410 | the i-th entry received is the i-th entry the peer sent, after the very same messages |
| HsEndpoint.Endpoint.InitHash | zeenoc/Pods/BoringSSL-GRPC/ssl/ssl_transcript.cc:181-195 | the running hash starts from the whole transcript so far |
| HsEndpoint.Endpoint.FreeBuffer | zeenoc/Pods/BoringSSL-GRPC/ssl/ssl_transcript.cc:197-199 | the transcript survives in the running hash |
| HsEndpoint.Endpoint.Update | zeenoc/Pods/BoringSSL-GRPC/ssl/ssl_transcript.cc:236-252 | buffer and hash, whichever are there, take the message alike |
| HsEndpoint.Endpoint.Hash | zeenoc/Pods/BoringSSL-GRPC/ssl/handshake.cc:215-222 | the current message joins the transcript once |
| HsEndpoint.Endpoint.Next | zeenoc/Pods/BoringSSL-GRPC/ssl/s3_both.cc:562-584 | releasing a hashed message makes what is hashed equal what is released |
| HsEndpoint.Endpoint.Add | zeenoc/Pods/BoringSSL-GRPC/ssl/s3_both.cc:184-205 | a message joins flight and transcript together, only when it is this side's turn; a Finished only with the value, a CertificateVerify only with a signature over the transcript so far |
| HsEndpoint.Endpoint.GetFinished | zeenoc/Pods/BoringSSL-GRPC/ssl/handshake.cc:380-429 | accepts exactly the peer's value over the transcript before the message, which is hashed and released once; otherwise nothing changes or the driver fails |
| HsEndpoint.Endpoint.SendFinished | zeenoc/Pods/BoringSSL-GRPC/ssl/handshake.cc:431-476 | sends this side's value over the transcript so far |
| HsEndpoint.Endpoint.Resolve | zeenoc/Pods/BoringSSL-GRPC/ssl/handshake.cc:491-609 | blocks exactly if what the wait is for is not there: a message, a ChangeCipherSpec, the flush, or nothing; returns early exactly on that wait, and consumes exactly one ChangeCipherSpec when that was awaited and nothing otherwise |
| HsClient.DoStartConnect | zeenoc/Pods/BoringSSL-GRPC/ssl/handshake_client.cc:385-452 | sends the ClientHello and flushes: on leaving the state the transcript holds exactly the messages sent and received by then, once each, the key events are those of the path, and the buffer is there exactly if a CertificateVerify can still come; the next state and the wait are the ones that belong to it |
| HsClient.DoEnterEarlyData | zeenoc/Pods/BoringSSL-GRPC/ssl/handshake_client.cc:454-489 | goes on to the HelloVerifyRequest in DTLS and to the ServerHello otherwise; keeps what every state keeps |
| HsClient.DoReadHelloVerifyRequest | zeenoc/Pods/BoringSSL-GRPC/ssl/handshake_client.cc:491-533 | a HelloVerifyRequest is released unhashed and the transcript starts again with one ClientHello; any other message is left alone; keeps what every state keeps |
| HsClient.DoReadServerHello | zeenoc/Pods/BoringSSL-GRPC/ssl/handshake_client.cc:535-759 | hashes it once and starts the hash; the buffer stays exactly in a full handshake with certificates; keeps what every state keeps |
| HsClient.DoReadServerCertificate | zeenoc/Pods/BoringSSL-GRPC/ssl/handshake_client.cc:771-819 | taken once when the cipher uses certificates; keeps what every state keeps |
| HsClient.DoReadCertificateStatus | zeenoc/Pods/BoringSSL-GRPC/ssl/handshake_client.cc:821-869 | takes the optional message once if it came; keeps what every state keeps |
| HsClient.DoVerifyServerCertificate | zeenoc/Pods/BoringSSL-GRPC/ssl/handshake_client.cc:871-889 | left under a cipher with certificates only once the certificate is accepted, after any number of waits; keeps what every state keeps |
| HsClient.DoReadServerKeyExchange | zeenoc/Pods/BoringSSL-GRPC/ssl/handshake_client.cc:891-1071 | taken once if it came, and not passed without it when the cipher requires it; keeps what every state keeps |
| HsClient.DoReadCertificateRequest | zeenoc/Pods/BoringSSL-GRPC/ssl/handshake_client.cc:1073-1143 | taken once, or on a ServerHelloDone the buffer is freed; keeps what every state keeps |
| HsClient.DoReadServerHelloDone | zeenoc/Pods/BoringSSL-GRPC/ssl/handshake_client.cc:1145-1167 | taken once, after which it is the client's turn; keeps what every state keeps |
| HsClient.DoSendClientCertificate | zeenoc/Pods/BoringSSL-GRPC/ssl/handshake_client.cc:1169-1215 | sent once if asked for, after any number of waits; without one the buffer is freed; keeps what every state keeps |
| HsClient.DoSendClientKeyExchange | zeenoc/Pods/BoringSSL-GRPC/ssl/handshake_client.cc:1220-1371 | sent once; keeps what every state keeps |
| HsClient.DoSendClientCertificateVerify | zeenoc/Pods/BoringSSL-GRPC/ssl/handshake_client.cc:1373-1455 | a signature over the whole transcript before it, sent once, after any number of waits; then the buffer is gone; keeps what every state keeps |
| HsClient.DoSendClientFinished | zeenoc/Pods/BoringSSL-GRPC/ssl/handshake_client.cc:1457-1512 | ChangeCipherSpec and write keys, then the optional messages, then one Finished over the transcript so far, and flushes; keeps what every state keeps |
| HsClient.DoFinishFlight | zeenoc/Pods/BoringSSL-GRPC/ssl/handshake_client.cc:1538-1564 | a resumed handshake finishes, a full one waits for the server's last flight and may return early; keeps what every state keeps |
| HsClient.DoReadSessionTicket | zeenoc/Pods/BoringSSL-GRPC/ssl/handshake_client.cc:1566-1647 | taken once if expected, then waits for a ChangeCipherSpec; keeps what every state keeps |
| HsClient.DoProcessChangeCipherSpec | zeenoc/Pods/BoringSSL-GRPC/ssl/handshake_client.cc:1649-1656 | read keys switch only after a ChangeCipherSpec was consumed; keeps what every state keeps |
| HsClient.DoReadServerFinished | zeenoc/Pods/BoringSSL-GRPC/ssl/handshake_client.cc:1658-1672 | the server's Finished is verified under the new keys and taken once; then a resumed handshake sends its own; keeps what every state keeps |
| HsClient.DoFinishClientHandshake | zeenoc/Pods/BoringSSL-GRPC/ssl/handshake_client.cc:1674-1705 | the handshake is done; keeps what every state keeps |
| HsClient.Run | zeenoc/Pods/BoringSSL-GRPC/ssl/handshake_client.cc:1707-1789 | the loop of steps ends, at a stop, an error or done; it fails only for a refusal from outside or a message the state does not expect, returns to the caller only for a refusal or early, and with nothing to read does not move |
| HsDriver.Run | zeenoc/Pods/BoringSSL-GRPC/ssl/handshake.cc:491-628 | each of any number of entries, by either side, ends: done, early, with an error that a refusal or a misfit message has caused, or for want of what it names; with the awaited item there it gets further unless it fails or needs the caller, and without it it does nothing; it keeps what holds at every stop and only adds to the transcript unless a HelloVerifyRequest comes to a client |
| HsDriver.Turn | zeenoc/Pods/BoringSSL-GRPC/ssl/handshake.cc:491-628 | one turn stops, advances the handshake, or resolves a wait, so the driver comes to an end |
| HsHandshake.Passes | zeenoc/Pods/BoringSSL-GRPC/ssl/handshake_client.cc:1707-1789 | for every state of either side, what it decides, sends, receives and does to the keys is what the state after it expects |
| HsHandshake.Handshake.Advance | zeenoc/Pods/BoringSSL-GRPC/ssl/handshake_client.cc:1707-1789 | leaving a state for its successor keeps the invariant and the order of states |
| HsClient.ClientDone | zeenoc/Pods/BoringSSL-GRPC/ssl/handshake_client.cc:1649-1705 | a finished client's key events are exactly those of its path in their order, its messages are exactly the expected ones, each state was completed at most once, a certificate in use was accepted and one it sent was followed by a CertificateVerify |
| HsServer.DoStartAccept | zeenoc/Pods/BoringSSL-GRPC/ssl/handshake_server.cc:426-430 | goes on to the ClientHello; keeps what every state keeps |
| HsServer.DoReadClientHello | zeenoc/Pods/BoringSSL-GRPC/ssl/handshake_server.cc:432-510 | looks at the ClientHello without hashing it, after any number of waits; keeps what every state keeps |
| HsServer.DoSelectCertificate | zeenoc/Pods/BoringSSL-GRPC/ssl/handshake_server.cc:512-560 | looks at the same ClientHello again; keeps what every state keeps |
| HsServer.DoSelectParameters | zeenoc/Pods/BoringSSL-GRPC/ssl/handshake_server.cc:572-684 | hashes and releases it once, after any number of waits, and starts the hash; the buffer stays exactly when a certificate is requested; keeps what every state keeps |
| HsServer.DoSendServerHello | zeenoc/Pods/BoringSSL-GRPC/ssl/handshake_server.cc:686-752 | sent once; a resumed handshake goes on to its last flight; keeps what every state keeps |
| HsServer.DoSendServerCertificate | zeenoc/Pods/BoringSSL-GRPC/ssl/handshake_server.cc:754-840 | sent once when the cipher uses certificates, with the status when expected; keeps what every state keeps |
| HsServer.DoSendServerKeyExchange | zeenoc/Pods/BoringSSL-GRPC/ssl/handshake_server.cc:842-912 | sent once when there are parameters, after any number of waits for the signature; keeps what every state keeps |
| HsServer.DoSendServerHelloDone | zeenoc/Pods/BoringSSL-GRPC/ssl/handshake_server.cc:914-947 | the request if any and ServerHelloDone sent once and flushed, after which it is the client's turn; keeps what every state keeps |
| HsServer.DoReadClientCertificate | zeenoc/Pods/BoringSSL-GRPC/ssl/handshake_server.cc:949-1040 | taken once when requested; without a key the buffer is freed; keeps what every state keeps |
| HsServer.DoVerifyClientCertificate | zeenoc/Pods/BoringSSL-GRPC/ssl/handshake_server.cc:1042-1056 | left with a client key only once its certificate is accepted; keeps what every state keeps |
| HsServer.DoReadClientKeyExchange | zeenoc/Pods/BoringSSL-GRPC/ssl/handshake_server.cc:1058-1267 | hashed once, after any number of waits for the decryption; keeps what every state keeps |
| HsServer.DoReadClientCertificateVerify | zeenoc/Pods/BoringSSL-GRPC/ssl/handshake_server.cc:1269-1363 | with a client key, left only after a signature over the whole transcript before the message was accepted, and taken once; then the buffer is gone; keeps what every state keeps |
| HsServer.DoReadChangeCipherSpec | zeenoc/Pods/BoringSSL-GRPC/ssl/handshake_server.cc:1365-1368 | waits for a ChangeCipherSpec; keeps what every state keeps |
| HsServer.DoProcessChangeCipherSpec | zeenoc/Pods/BoringSSL-GRPC/ssl/handshake_server.cc:1370-1377 | read keys switch only after a ChangeCipherSpec was consumed; keeps what every state keeps |
| HsServer.DoReadNextProto | zeenoc/Pods/BoringSSL-GRPC/ssl/handshake_server.cc:1379-1413 | taken once when negotiated; keeps what every state keeps |
| HsServer.DoReadChannelId | zeenoc/Pods/BoringSSL-GRPC/ssl/handshake_server.cc:1415-1437 | taken once when negotiated; keeps what every state keeps |
| HsServer.DoReadClientFinished | zeenoc/Pods/BoringSSL-GRPC/ssl/handshake_server.cc:1439-1461 | the client's Finished is verified under the new keys and taken once; a full handshake then sends its own; keeps what every state keeps |
| HsServer.DoSendServerFinished | zeenoc/Pods/BoringSSL-GRPC/ssl/handshake_server.cc:1463-1509 | ticket, ChangeCipherSpec, write keys, then one Finished over the transcript so far, and flushes; keeps what every state keeps |
| HsServer.DoFinishServerHandshake | zeenoc/Pods/BoringSSL-GRPC/ssl/handshake_server.cc:1511-1537 | the handshake is done; keeps what every state keeps |
| HsServer.Run | zeenoc/Pods/BoringSSL-GRPC/ssl/handshake_server.cc:1539-1621 | the loop of steps ends, at a stop, an error or done; it fails only for a refusal from outside or a message the state does not expect, returns to the caller only for a refusal or early, and with nothing to read does not move |
| HsServer.ServerDone | zeenoc/Pods/BoringSSL-GRPC/ssl/handshake_server.cc:1269-1537 | a finished server's key events are exactly those of its path in their order, a parsed client key's certificate and CertificateVerify were accepted, its messages are exactly the expected ones, each state was completed at most once |
| HsPair.NeverRejected | zeenoc/Pods/BoringSSL-GRPC/ssl/handshake.cc:392-410 | with an honest peer the Finished check never fails: the peer computed its value over the same transcript |
| HsPair.Pair.RunClient | zeenoc/Pods/BoringSSL-GRPC/ssl/handshake.cc:491-628 | driving the client keeps the two transcripts comparable |
| HsPair.Pair.RunServer | zeenoc/Pods/BoringSSL-GRPC/ssl/handshake.cc:491-628 | driving the server keeps the two transcripts comparable |
| HsPair.Pair.Converse | zeenoc/Pods/BoringSSL-GRPC/ssl/handshake.cc:491-628 | under any schedule of runs, waits and deliveries neither end rejects the other's Finished, and when both are done their transcripts are equal and they have decided alike |
| HsPair.CheckedTranscriptsEqual | zeenoc/Pods/BoringSSL-GRPC/ssl/handshake.cc:392-410 | up to any message an end received, its transcript is the one its peer had when it sent that message |
| HsPair.NextWasSent | zeenoc/Pods/BoringSSL-GRPC/ssl/s3_both.cc:562-584 | the message an end looks at next is one its peer sent after exactly the transcript the end holds |
| HsPair.VerifyAccepted | zeenoc/Pods/BoringSSL-GRPC/ssl/handshake_server.cc:1310-1350 | an honest client's CertificateVerify is always accepted if the server accepts what the client's key signs |
| HsPair.BothDone | zeenoc/Pods/BoringSSL-GRPC/ssl/handshake.cc:612-626 | when both ends are done they hold the same transcript |
| HsPair.BothAgree | zeenoc/Pods/BoringSSL-GRPC/ssl/handshake.cc:612-626 | two finished ends agree on resumption, certificate, status, key exchange, certificate request and verification, ticket, next protocol and channel ID |
| HsAgreement.AgreementIsSameLists | zeenoc/Pods/BoringSSL-GRPC/ssl/handshake_client.cc:1707-1789 | what each end has sent is what the other has received, message by message, if and only if the two have decided alike |
| HsPair.NoDeadlock | zeenoc/Pods/BoringSSL-GRPC/ssl/handshake.cc:508-543 | when all that was sent has been taken, the two ends never both wait for each other |
| HsPair.ListensInTurn | zeenoc/Pods/BoringSSL-GRPC/ssl/handshake.cc:508-543 | a driver that waits for its peer has hashed all it took, and it is the peer's turn |
| CipherChoice.Choose | zeenoc/Pods/BoringSSL-GRPC/ssl/handshake_server.cc:389-421 | chooses, from the first group with a shared cipher, the one earliest in the other list; nothing exactly when no shared cipher is in a group that ends |
| CipherChoice.ChooseCipher | zeenoc/Pods/BoringSSL-GRPC/ssl/handshake_server.cc:357-424 | under client preference, or when the server's last group ends, nothing is chosen exactly when no usable cipher is shared; client preference gives the client's first; server preference gives the best of the groups, and nothing exactly when no shared cipher is in a group that ends |
| CipherChoice.BestIsUnique | zeenoc/Pods/BoringSSL-GRPC/ssl/internal.h:1860-1888 | the groups determine one best cipher |
| CipherChoice.BestWithoutGroups | zeenoc/Pods/BoringSSL-GRPC/ssl/internal.h:1876-1878 | without groups the best is the first shared one |
| Premaster.Lt | zeenoc/Pods/BoringSSL-GRPC/crypto/internal.h:249-283 | the mask is all ones exactly when the first word is less |
| Premaster.IsZero | zeenoc/Pods/BoringSSL-GRPC/crypto/internal.h:303-316 | the mask is all ones exactly for zero |
| Premaster.Eq | zeenoc/Pods/BoringSSL-GRPC/crypto/internal.h:325-328 | the mask is all ones exactly for equal words |
| Premaster.Select8 | zeenoc/Pods/BoringSSL-GRPC/crypto/internal.h:359-362 | a full mask selects the first byte, an empty one the second |
| Premaster.Check | zeenoc/Pods/BoringSSL-GRPC/ssl/handshake_server.cc:1157-1171 | the mask is 0xff when padding and version are right and 0 otherwise |
| Premaster.Choose | zeenoc/Pods/BoringSSL-GRPC/ssl/handshake_server.cc:1142-1178 | the result is the decrypted premaster when padding and version are right and the random one otherwise; buffers too short are refused |
| RefCount.StepIsCall | zeenoc/Pods/BoringSSL-GRPC/crypto/refcount_c11.c:37-65 | each atomic access changes nothing or is one locked call with its result |
| RefCount.Linearizes | zeenoc/Pods/BoringSSL-GRPC/crypto/refcount_lock.c:29-51 | any interleaving of any number of threads, spurious failures included, takes effect as a sequence of locked calls with the same results and count |
| RefCount.OneEffectPerCall | zeenoc/Pods/BoringSSL-GRPC/crypto/refcount_c11.c:37-65 | each call takes effect as exactly one locked call between its start and its return, and returns its result |
| RefCount.ReportsApart | zeenoc/Pods/BoringSSL-GRPC/crypto/refcount_c11.c:49-65 | between two decrements that report zero there is an increment |
| RefCount.Saturated | zeenoc/Pods/BoringSSL-GRPC/crypto/refcount_c11.c:41-42 | a saturated count never changes, and no decrement of it reports zero |
| RefCount.CountsReferences | zeenoc/Pods/BoringSSL-GRPC/crypto/refcount_c11.c:37-65 | over any interleaved run below saturation, a call aborts only if more is given back than is held; otherwise the count is the references held, the start plus increments minus decrements, and a call reports zero exactly if it is a decrement that leaves none |

## Left out

nanopb:

- PbRoundTrip.RoundTrip: packed arrays and nested messages of 2^32 bytes and more are left out, because the decoder reads their lengths with 32 bits.
- PbRoundTrip.SingularKept: presence goes by a test of an array's first entry; for one- and two-byte integers, texts and submessages the code looks at the first four bytes of the array, which depend on the entries behind the first and on memory layout.
- PbBounds.Reencoded: descriptors with fixed-count arrays are left out, because a struct does not show that such an array never came, and so are buffer fields too small for an empty value.
- PbBounds.NormalEncodesAlike: as in proto3, a field without has_ flag has no default of its own.
- PbWire.ReadWithFewerFields: the fields left out are those of the message itself; that a nested descriptor lacks some is not stated.
- PbWire.ValueSkips: nested messages of 2^32 bytes and more are left out, because a length is read with 32 bits.
- PbEncode.DefaultsAreSilent: descriptors with nonempty fixed-count arrays are left out, because the entries are not initialized.
- PbMerge.OccurrencesMerge: the limits of PbFold.MergeIsConcat apply to the nested descriptor.
- PbFold.MergeIsConcat: descriptors with fixed-count fields and inputs cut short by a zero terminator are left out; the first must be complete in each part, the second hides what follows.
- PbCodec.ThroughBuffer: structs are trees of values; memory offsets appear only in the iterator, and aliasing inside a struct not at all.
- Callback fields, extensions, custom streams, pointer fields with their allocation and release, and builds without 64-bit integers.
- How a zero test on one- and two-byte integers, texts, fixed-length bytes and submessages reads neighbouring memory; the model tests the value itself.
- Disjunction of bits and shifts are arithmetic on natural numbers, with the truncation to 32 or 64 bits written out.
- The sizes size_t can hold are unbounded except where a length is sent as a 64-bit varint.

DTLS:

- DtlsRun.Connection.Run: fewer than 65536 messages are added, since sequence numbers wrap there; decryption is the inverse of encryption and is not part of this model.
- DtlsFlight.Flight.SendFlight: an allocation failure is left out; record headers, the sequence bytes and the ciphertext are only counted; failures of the cipher, a sequence number overflow and a ciphertext over 65535 bytes are one sealing failure.
- DtlsReplay.NeverTwice: the epoch does not wrap during the run.
- Record header parsing, the ChangeCipherSpec flag of the receiver, timers (a retransmission may happen at any time), clearing a flight after the handshake, and alerts.

TLS write path:

- TlsWrite.TlsWriter.WriteApp: early data, a negative length and a missing transport are left out; a record split in two for TLS 1.0 is one sealed string.
- TlsWrite.TlsWriter.AddMessage: the transcript is part of the handshake model instead.
- The assertion that nothing is added to a flight that is partly written; the queue holds without it.

Handshake:

- HsPair.Pair.Converse: a message counts as deliverable when it is added, before the flight is flushed.
- HsClient.ClientDone: holds if the application leaves the client's certificate alone between the Certificate and the CertificateVerify message. Whether there is one is decided once, in HsClient.DoSendClientCertificate; the code asks again at handshake_client.cc:1376, and with a certificate set in between it would sign an empty transcript.
- HsPair.NoDeadlock: that a message which has come is the one the state expects is not stated for two drivers whose decisions differ; HsPair.BothAgree speaks of finished ones.
- HsHandshake.Handshake: what is decided on the way is one record of values instead of single fields.
- HsEndpoint.Endpoint.Resolve: warning alerts and empty records that make the driver read again are left out.
- TLS 1.3, SSL 3.0, V2ClientHello, early data, renegotiation, handoff, session contents and caches; cryptography is uninterpreted.
- The bytes of hello extensions, certificates and key exchanges; a message has a type and a body.

The rest:

- RefCount.Linearizes: an abort is a result, so other threads may still act between the load of zero and the end of the process.
- Premaster.Choose: RSA decryption and the random generator; that the code takes the same time on every input is not a statement about values and is not made.
- CipherChoice.ChooseCipher: which ciphers a version and configuration allow is a set given from outside.
- The application's views, the push server, certificate and key files, key shares, CPU detection, threads and memory wrappers.

# Verified model of the HIL-RIG protocol core

This project models, in Dafny, the parts of the HIL-RIG protocol library where a mistake would be hardest to
see, and proves what they promise for all inputs and all runs.

- **The Application codec** for the variable-record messages (Update Instruction and Variable Test Result)
  and for the families with byte spans (Arbitrary Data, Error, System Information Response): five views of
  one format. `Messages` gives the wire form and the typed validator, `RecordScan`, `Parsing` and `Scanners`
  the allocation-free scanners, `Encoding` the sizers and encoders, `Decoding` the unchecked second pass into
  caller storage, `Application` the façade. `Envelopes` and `CodecLaws` prove that they agree.
- **What the codec is meant to accept**, stated without the code's own checks: `EnvelopeRules` by the message
  classes of the Python binding, `TypedMessages`, `PeripheralValues`, `CanFrames` and `SpiPackets` by the
  values a message carries, `RecordLists` without the duplicate masks, `LittleEndian` and `WireTables` by the
  documented byte tables. `Documented` proves that decoding accepts exactly that, `MessageRefusals` and
  `RecordRefusals` say why everything else is refused, and `WireVectors` reads four messages byte by byte.
- **The Python binding** (`PythonBinding`, `PythonCodec`): the layout checks it repeats on native storage,
  its own size arithmetic, and the round trip through it.
- **The bounded stream parser** (`StreamParser`), proved in `StreamSplit` to refine splitting at zeros.
- **CRC-32 by nibble table** (`BitFold`, `Crc32`): bitwise polynomial division, linearity, bijectivity,
  the start value and the check value, burst detection and the residue of RFC 1662, appendix C.3.
- **Control output and its servicer** (`ControlOutput`, `Servicing`), composed with the parser in `Delivery`
  into an end-to-end protocol driven by arbitrary writes, arrivals and consumption.

Objects whose methods update their fields are classes, loops are methods with invariants, and each such
method is proved against a function on values; the lemmas are about those functions. `Records` and
`RecordBound` hold the record rules, `Sequences`, `Wire`, `TransportTypes`, `StorageSize`, `Buffers` and
`DecodeStorage` what the others share.

Modelling choices. Bytes are integers from 0 to 255 and sizes are unbounded, with the size type's largest
value, both descriptor sizes and the storage alignment as parameters (`Platform`); each checked addition,
multiplication and rounding of the modelled operations is checked against that largest value, which may be
as small as 65535. Pointers are offsets into the storage. A
storage cell is a raw byte or one part of a descriptor object, so overlaying bytes and descriptors is
visible. The context limits are those `Init` admits. A branch the code keeps for a case that cannot arise,
such as its INTERNAL_ERROR returns, is an `assert false` at that place. The record loops that the code
writes twice, once for each family, are written once with the family as a parameter, and so is the rounding
in front of the second pass.

Where the code falls short of a law, the code is kept and the exact condition is proved: a discovery response
of another protocol version is decoded but not encoded (`DecodeThenEncode`, `OtherVersionIsReadOnly`); the
bytes of an absent Test-ID are dropped (`EncodeThenDecode`, `AbsentTestIdIsNotCarried`); the size query does
not validate the record families (`SizedEncodesExactlyWhenValid`, `SizeDoesNotValidate`).

Run `dafny verify dfyconfig.toml` to check the project.

## Model

| member | source | states |
|---|---|---|
| CodecLaws.EncodeThenDecode | src/application/application.c:456-741 | Round trip: what encodes, into any buffer, decodes in the same context to the message as the wire carries it, which is the message itself exactly when an absent Test-ID has no bytes |
| CodecLaws.DecodeThenEncode | src/application/application.c:456-741 | Canonical form: re-encoding a decoded message into a buffer of the original size gives the original bytes, padding and reserved bytes included, unless it is a discovery response of another version, which is refused with VERSION_MISMATCH |
| CodecLaws.OtherVersionIsReadOnly | src/application/application_encoding.c:169-174 | A discovery response of version 1.0.0 decodes and cannot be encoded into any buffer |
| CodecLaws.AbsentTestIdIsNotCarried | src/application/application_message.c:213-220 | A valid message whose absent Test-ID holds bytes encodes, and decodes to a different message |
| CodecLaws.SizeIsExact | src/application/application.c:408-454 | For a valid message a reported size is the wire size within the context limit, and encoding succeeds exactly from that buffer size on; a reported failure means no buffer suffices |
| CodecLaws.EncodableHasSize | src/application/application.c:408-454 | Whatever encodes has a reported size, and it is the wire size |
| CodecLaws.SizedEncodesExactlyWhenValid | src/application/application.c:408-534 | A message with a reported size encodes into that many bytes if and only if the validator accepts it |
| CodecLaws.SizeDoesNotValidate | src/application/application_size.c:163-198 | The size query does not validate the record families: an Update Instruction without operations has a size and does not encode |
| CodecLaws.SpansTileTheStorage | src/application/application_decoding.c:1005-1038 | Descriptor i of a decoded list points right behind the data of the records before it; the spans are disjoint and contiguous, start at the aligned offset behind the descriptor array and end at the last reported storage byte |
| CodecLaws.SpansAreDisjoint | src/application/application_decoding.c:1028-1034 | A later record's data starts behind the end of every earlier one's |
| CodecLaws.DescriptorStorageIsBounded | src/application/application_decoding.c:312-330 | Despite the 255 the count byte allows, the descriptors of an accepted list take less than 15 (or 11) descriptor sizes and one alignment |
| RecordScan.RecordsAreWords | src/application/application_size.c:143-161 | Serialised records come in whole 32-bit words, whatever their data lengths |
| Envelopes.AcceptedExactlyWhenWireForm | src/application/application.c:698-741 | Decoding accepts a byte string as message m if and only if the bytes are m's wire form, m is valid, carries no bytes for an absent Test-ID, fits the context limit, and its decoded form fits the storage |
| Envelopes.DecodedIsWire | src/application/application.c:251-307 | An accepted message came in as its own wire form and is valid |
| Envelopes.WireIsRead | src/application/application.c:264-296 | The wire form of a valid canonical message within the limits is read as that message, in the envelope a writer gives it |
| Envelopes.WireIsDecoded | src/application/application.c:251-307 | The wire form of a valid canonical message within the limits is accepted as that message |
| Envelopes.DecodingIsInjective | src/application/application.c:698-741 | Byte strings decoded to the same message are equal |
| Envelopes.WireFormIsInjective | src/application/application.c:456-534 | Valid messages with one wire form differ at most in the bytes of an absent Test-ID |
| Envelopes.ValidationEqualsDecoding | src/application/application.c:883-997 | Validation reports n exactly when decoding succeeds with n storage bytes and uses n; less storage gives BUFFER_TOO_SMALL; with enough storage a refusal has the same status from both |
| Envelopes.ScanLeavesNothingToValidate | src/application/application.c:954-969 | After the scan the validator's remaining checks equal the full typed validation, so the early OK of the record and Arbitrary Data families is right |
| Envelopes.OnlyErrorsFailAfterTheScan | src/application/application.c:914-969 | Once the storage query accepts, validation agrees with it unless the message is an Error that the typed validator refuses; so the second reading of a discovery response never finds a fault |
| Envelopes.HeaderExact | src/application/application_message.c:236-294 | A header is accepted exactly when it is the wire form of an envelope that keeps the type, subtype, Test-ID and version rules |
| Envelopes.ReadIsWire | src/application/application.c:264-296 | A message read from bytes has those bytes as header and body, whole and with nothing behind it |
| RecordScan.AcceptedExactlyWhenSerialised | src/application/application_decoding.c:181-261 | The record scan accepts a payload as a list if and only if the list has the announced length, the bytes are its serialisation, and the typed per-record and duplicate checks accept it |
| RecordScan.ScanIsSound | src/application/application_decoding.c:190-260 | Soundness of the scan, from every offset and every set of pairs already seen |
| RecordScan.ScanIsComplete | src/application/application_decoding.c:190-260 | Completeness of the scan, from every offset and every set of pairs already seen |
| RecordScan.TallyIsDataSize | src/application/application_decoding.c:247-260 | The total the scanner's loop accumulates is the length of all record data |
| RecordScan.ScanRecord | src/application/application_decoding.c:192-245 | One turn of the scan loop with the duplicate masks updated in place; every remaining size is a natural number, so no subtraction wraps |
| RecordScan.AlignedRecordsScan | src/application/application_decoding.c:181-261 | The scan loop: the status of the first failing check in the code's order, or the total; the overflow branch is unreachable |
| RecordScan.PaddingIsZero | src/application/application_decoding.c:238-244 | Padding is accepted exactly when every pad byte is zero |
| RecordScan.ScanOneComplete | src/application/application_decoding.c:192-245 | A serialised acceptable record is scanned as that record, ending behind its padding |
| StorageSize.RoundUpIsLeastMultiple | src/application/application_internal.h:190-203 | The rounding gives the least multiple of the alignment not below the value, by remainder or by division |
| StorageSize.AlignUpIsRoundUp | src/application/application_internal.h:190-203 | The checked C rounding gives the Python rounding, and fails exactly when that exceeds the size type |
| StorageSize.CheckedMulIsExact | src/application/application_internal.h:179-187 | The division test of the checked multiplication fails exactly when the product overflows |
| StorageSize.ListStorageIsExact | src/application/application_decoding.c:312-330 | Multiply, align and add report overflow exactly when the true storage size does not fit |
| Messages.ValidateMessage | src/application/application.c:743-813 | The validator of a typed message: envelope fields, then the family's checks, with the record loops |
| Parsing.ParseBodyExact | src/application/application.c:166-249 | For every modelled family the scanner accepts a payload as a body if and only if the payload is the body's wire form, the body is readable, and its storage fits the size type |
| Parsing.ParseUpdateExact | src/application/application_decoding.c:263-333 | The same for an Update Instruction: readable means valid |
| Parsing.ParseCapturedExact | src/application/application_decoding.c:335-424 | The same for a Variable Test Result, with or without records |
| Parsing.ParseArbitraryExact | src/application/application_arbitrary.c:135-165 | The same for Arbitrary Data |
| Parsing.ParseErrorExact | src/application/application_decoding.c:83-119 | The same for an Error, whose fields the scan leaves to the validator |
| Parsing.ParseInfoExact | src/application/application_decoding.c:121-172 | The same for a System Information Response and its two spans |
| Scanners.UpdateInstructionScan | src/application/application_decoding.c:263-333 | The scanner's status and storage size, refusals in the code's order and with no storage reported |
| Scanners.VariableTestResultScan | src/application/application_decoding.c:335-424 | The scanner's status and storage size, including the empty list |
| Scanners.DescriptorStorage | src/application/application_decoding.c:312-332 | Storage is the exact sum, or INVALID_LENGTH exactly when that does not fit the size type |
| Scanners.ErrorScan | src/application/application_decoding.c:83-119 | The scanner's status and storage size; the overflow branch is unreachable |
| Scanners.SystemInfoResponseScan | src/application/application_decoding.c:121-172 | The scanner's status and storage size; no remaining size wraps |
| Scanners.ArbitraryDataScan | src/application/application_arbitrary.c:135-165 | The scanner's status and storage size |
| Scanners.TestIdIsZero | src/application/application_message.c:59-70 | True exactly for the zero Test-ID |
| Scanners.HeaderDecoding | src/application/application_message.c:236-294 | The envelope, or the status of the first failing check |
| Scanners.DecodeStorageSize | src/application/application.c:536-696 | The storage query: status or exact size, for the modelled families; INVALID_LENGTH when header and payload length overflow the size type |
| Scanners.ValidateEncodedSystemInfoResponse | src/application/application.c:815-858 | The validator's own unchecked reading of a scanned payload gives the scanned body; its length check cannot fail |
| Scanners.ValidateEncodedError | src/application/application.c:860-881 | The validator's own unchecked reading of a scanned Error gives the scanned body and its status |
| Scanners.ValidateEncodedMessage | src/application/application.c:883-997 | Validation without storage: status or exact size; the second header parse cannot fail |
| Encoding.AlignedRecordSize | src/application/application_size.c:143-161 | One record's wire size added, with failure exactly on overflow |
| Encoding.RecordListSize | src/application/application_size.c:163-198 | The size loop: header plus the serialised records, or INVALID_LENGTH exactly on overflow |
| Encoding.BodySize | src/application/application.c:25-92 | The size of every modelled body, with each family's own checks first |
| Encoding.EncodedSize | src/application/application.c:408-454 | The size query's verdict |
| Encoding.AlignedRecordEncode | src/application/application_encoding.c:584-614 | Writes exactly one serialised record at the running offset and nothing else; a peripheral number without a wire byte writes nothing |
| Encoding.RecordListEncode | src/application/application_encoding.c:651-660 | The encode loop writes exactly the serialised list; a record without a wire form stops it inside the space of the list |
| Encoding.ByteSpanEncode | src/application/application_encoding.c:58-99 | Writes length and bytes, or refuses and writes nothing |
| Encoding.UpdateInstructionEncode | src/application/application_encoding.c:616-669 | For any body, valid or not: the verdict, and exactly the body written or, unless a record has no wire form, nothing; the INTERNAL_ERROR branch is unreachable |
| Encoding.VariableTestResultEncode | src/application/application_encoding.c:808-869 | For any body, valid or not: the verdict, and exactly the body written or, unless an enumeration has no wire form, nothing; the INTERNAL_ERROR branch is unreachable |
| Encoding.ValidBodyEncodes | src/application/application_encoding.c:584-669 | On a valid body only the version and the two size checks can stop an encoder |
| Encoding.ArbitraryDataEncode | src/application/application_arbitrary.c:83-113 | For any body: writes exactly the body, or refuses and writes nothing |
| Encoding.ErrorEncode | src/application/application_encoding.c:934-999 | For any body: writes exactly the body, or refuses and writes nothing; the overflow, enumeration and both INTERNAL_ERROR branches are unreachable |
| Encoding.SystemInfoResponseEncode | src/application/application_encoding.c:148-211 | For any body, valid or not: the verdict, and exactly the body written or, unless a span is too long for its length byte, nothing |
| Encoding.BodyEncode | src/application/application.c:94-164 | Dispatch to the family's encoder, with one contract for all |
| DecodeStorage.StoredReadsBack | src/application/application_decoding.c:1005-1045 | Following the pointers of a decoded native body into its storage gives the body |
| DecodeStorage.ListReadsBack | src/application/application_decoding.c:1020-1038 | A descriptor array and its data, anywhere in the storage, read back as the records |
| Decoding.RecordDecode | src/application/application_decoding.c:1022-1037 | One turn of the unchecked second pass on a serialised record: reads stay in the payload, the descriptor and the data go where they belong |
| Decoding.PoolDecode | src/application/application_decoding.c:1020-1038 | The unchecked loop: descriptors and data of exactly the scanned records, ending at the end of the payload; the gap between descriptors and data, and what lies behind, stay as they were |
| Decoding.RecordListDecode | src/application/application_decoding.c:1009-1045 | The second pass uses exactly the storage the scan reported; the alignment gap and everything behind are untouched, and the INTERNAL_ERROR after the rounding is unreachable |
| Decoding.RegionsGrow | src/application/application_decoding.c:1022-1034 | A new descriptor and new data disturb neither region written so far |
| Decoding.UpdateInstructionDecode | src/application/application_decoding.c:962-1047 | Scan verdict, then BUFFER_TOO_SMALL or the native body with its storage, the whole payload consumed; both INTERNAL_ERROR branches are unreachable, the one after the rounding inside the shared second pass |
| Decoding.VariableTestResultDecode | src/application/application_decoding.c:1185-1281 | The same for a Variable Test Result, with a null record pointer for an empty list; both INTERNAL_ERROR branches are unreachable |
| Decoding.ByteSpanDecode | src/application/application_decoding.c:448-503 | The span, the bytes copied and both counts; a refusal reports zero counts and copies nothing; encoded length is checked before the destination |
| Decoding.ErrorDecode | src/application/application_decoding.c:1322-1370 | The same contract; both INTERNAL_ERROR branches are unreachable |
| Decoding.SpanPairDecode | src/application/application_decoding.c:570-589 | On a scanned response neither span decode can fail, and both spans lie back to back in the storage |
| Decoding.SystemInfoResponseDecode | src/application/application_decoding.c:534-594 | The same contract, with both spans back to back in the storage |
| Decoding.ArbitraryDataDecode | src/application/application_arbitrary.c:167-197 | The same contract |
| Decoding.BodyDecode | src/application/application.c:166-249 | Dispatch to the family's decoder, with one contract for all |
| Application.Init | src/application/application.c:359-406 | A context is published exactly when the three limits are in range, and is cleared otherwise; which limit decides the refusal is stated for every case |
| Application.HeaderEncoding | src/application/application_message.c:189-234 | Writes the 23-byte header with a zero length, or refuses and writes nothing |
| Application.PatchedHeader | src/application/application.c:507-531 | Header, body and patched length make the message's wire form |
| Application.EncodeMessage | src/application/application.c:456-534 | On success the buffer starts with exactly the wire form and the rest is untouched; on failure no size is reported; the size checks after the body are unreachable |
| Application.ValidateDecoded | src/application/application.c:301-306 | The discovery version check and the typed validation of what the native pointers show; reading through them cannot fail |
| Application.DecodeMessage | src/application/application.c:698-741 | The verdict on the bytes; on success the native message, its storage, the exact count used and nothing written beyond |
| PythonBinding.ReadAlignedRecords | python/hil_rig_protocol/_application_conversion.py:130-160 | Returns a record list if and only if it is laid out as the decoder lays it out and fills the storage |
| PythonBinding.ReadLoop | python/hil_rig_protocol/_application_conversion.py:143-160 | The loop of the layout check, in both directions |
| PythonBinding.NextLaidOut | python/hil_rig_protocol/_application_conversion.py:144-157 | On a laid-out list the check of record i succeeds at the running offset |
| PythonBinding.CopyResponseSpans | python/hil_rig_protocol/application.py:260-284 | Accepts the decoder's two spans; whatever it accepts fills the storage and is what the pointers show |
| PythonBinding.CopyOnlySpan | python/hil_rig_protocol/application.py:346-357 | Accepts the decoder's single span, empty or not; whatever it accepts fills the storage and is what the pointer shows |
| PythonCodec.StorageLimitHolds | python/hil_rig_protocol/application.py:561-576 | The binding's storage bound never refuses a size the codec reports |
| PythonCodec.ReadNative | python/hil_rig_protocol/application.py:287-459 | The message reader accepts every answer of the decoder, as the decoded message, and whatever it accepts it reads through the native pointers |
| PythonCodec.ReadRecords | python/hil_rig_protocol/_application_conversion.py:163-202 | The record reader accepts every list the decoder lays out, and whatever it accepts is what the record pointer shows |
| PythonCodec.Decode | python/hil_rig_protocol/application.py:548-602 | decode answers as the codec does; of the binding's own errors only the one for an incompatible storage alignment can occur, exactly when the query accepts and the alignments do not divide |
| PythonCodec.Encode | python/hil_rig_protocol/application.py:498-546 | encode answers as the codec does; none of the binding's own errors occurs |
| PythonCodec.EncodedDecodesBack | python/hil_rig_protocol/application.py:498-602 | decode(encode(m)) is m for every value the binding can build |
| PythonCodec.DecodedEncodesBack | python/hil_rig_protocol/application.py:498-602 | encode(decode(b)) is b if and only if b is not a discovery response of another version |
| PythonCodec.ReadingIsOrdinary | src/application/application.c:536-696 | No bytes make the scanners answer INTERNAL_ERROR, INVALID_ARGUMENT, UNINITIALIZED or BUFFER_TOO_SMALL |
| PythonCodec.DecodingIsOrdinary | src/application/application.c:698-741 | Decoding with the storage the query asked for answers none of those four either, and uses all of it |
| Records.ValidateSpiTable | src/application/application_validation.c:605-624 | The SPI loop accepts exactly a nonzero count, that many nonzero lengths, and data of their total |
| Records.ValidateCanFrames | src/application/application_validation.c:529-549 | The CAN loop accepts exactly whole frames that each keep the identifier, length and reserved-byte rules |
| Records.ValidateOperationFields | src/application/application_validation.c:570-633 | The per-peripheral rules of an operation, in the code's order |
| Records.ValidateCaptureFields | src/application/application_validation.c:635-675 | The per-peripheral rules of a captured record, in the code's order |
| Records.ReservedBitsAreClearExactlyBelow | src/application/application_validation.c:485-497 | The mask test of the code on the 16-bit word is a bound on its value |
| Records.ValidateDigitalBank | src/application/application_validation.c:485-497 | The digital bank test, by mask, accepts exactly two bytes on channel 0 with the upper six bits clear |
| Records.ValidatePwm | src/application/application_validation.c:507-520 | The PWM test accepts exactly six bytes on a channel in range with a duty up to 10000, and none without a period |
| Records.RecordPairMark | src/application/application_validation.c:551-568 | Marks an in-range pair once; refuses a second mark and changes nothing then |
| Records.MarkAdds | src/application/application_validation.c:561-567 | Setting one mask bit adds exactly that pair to those the masks hold |
| Records.ValidateList | src/application/application_validation.c:702-720 | The list loop: pair check then fields, the first failure decides |
| RecordBound.AcceptedListIsShort | src/application/application_validation.c:551-675 | An accepted Update Instruction has at most 15 operations and a Variable Test Result at most 11 records |
| RecordBound.BoundIsReached | src/application/application_validation.c:551-675 | Both bounds are reached wherever a CAN frame fits the variable-data limit |
| SpiPackets.AcceptedExactlyWhenPackets | src/application/application_validation.c:578-625 | An SPI operation payload is accepted if and only if the channel and size are in range and it packs 1 to 255 packets of 1 to 255 bytes |
| SpiPackets.UnpackThenPack | src/application/application_validation.c:605-624 | Unpacking an accepted payload and packing gives it back |
| SpiPackets.PackThenUnpack | src/application/application_validation.c:605-624 | Packing any valid packets gives an accepted payload that unpacks to them |
| SpiPackets.PacketsAreUnique | src/application/application_validation.c:605-624 | The packet list a payload spells is unique |
| Wire.U16RoundTrip | src/application/application_internal.h:234-244 | Reading a 16-bit field gives v exactly when its bytes are those written for v |
| Wire.U32RoundTrip | src/application/application_internal.h:247-260 | Reading a 32-bit field gives v exactly when its bytes are those written for v |
| StreamParser.Parser.Init | src/transport/internal/common/transport_parser.c:16-29 | A nonempty buffer gives an empty valid parser; otherwise nothing changes |
| StreamParser.Parser.PushByte | src/transport/internal/common/transport_parser.c:31-69 | One byte is one step of the phase machine; a corrupt parser and an unread body are left alone |
| StreamParser.Parser.PushBytes | src/transport/internal/common/transport_parser.c:71-114 | A chunk is the steps of exactly its consumed prefix, ending where something must be reported |
| StreamParser.Parser.PeekBody | src/transport/internal/common/transport_parser.c:148-175 | Exposes exactly the held body |
| StreamParser.Parser.ConsumeBody | src/transport/internal/common/transport_parser.c:177-195 | Releases the held body, and changes nothing when there is none |
| StreamParser.Parser.ReadBody | src/transport/internal/common/transport_parser.c:116-146 | Copies the held body and consumes it, also into the scratch buffer itself; too small a buffer changes nothing |
| StreamParser.Parser.Reset | src/transport/internal/common/transport_parser.c:197-206 | Empties the parser and repairs its state |
| StreamSplit.RunRefinesSplit | src/transport/internal/common/transport_parser.c:31-195 | In every run the reports, with the body held, are the split of the accepted bytes at zeros: empty segments vanish, fitting ones are bodies, longer ones one discard each |
| StreamSplit.ChunkingDoesNotMatter | src/transport/internal/common/transport_parser.c:71-114 | Two runs that accepted the same bytes and hold no body reported the same events |
| StreamSplit.PushMakesProgress | src/transport/internal/common/transport_parser.c:71-114 | A push stops short only to report a body or a discard, and consumes something unless a body is held |
| StreamSplit.UnreadBodyIsKept | src/transport/internal/common/transport_parser.c:38-41 | No sequence of pushes alters an unread body, accepts a byte or reports anything |
| StreamSplit.RetryAcceptsEverything | src/transport/internal/common/transport_parser.c:71-195 | Retrying the unconsumed suffix and taking bodies gets any stream through |
| StreamSplit.ResynchronisesAtDelimiter | src/transport/internal/common/transport_parser.c:42-64 | From every reachable state, once a delimiter has passed, the next fitting body comes out whole |
| StreamSplit.SplitJoins | src/transport/internal/common/transport_parser.c:51-59 | The split at zeros is a cut of the stream: zero-free segments that join back to it |
| StreamSplit.SplitIsUnique | src/transport/internal/common/transport_parser.c:51-59 | It is the only such cut |
| Crc32.Update | src/transport/internal/common/transport_crc.c:16-33 | The table-driven loop equals bitwise division by 0xEDB88320 over the message bits |
| Crc32.Compute | src/transport/internal/common/transport_crc.c:40-44 | Compute is the complemented division from the all-ones start |
| Crc32.NibbleIsFourShifts | src/transport/internal/common/transport_crc.c:3-9 | Each table entry is the effect of four division steps |
| Crc32.ByteStep | src/transport/internal/common/transport_crc.c:27-29 | Two lookups equal eight division steps on one byte |
| Crc32.UpdateInChunks | src/transport/internal/common/transport_crc.c:16-33 | Updating over a concatenation is updating twice |
| Crc32.UpdateIsLinear | src/transport/internal/common/transport_crc.c:16-33 | Updating is linear over exclusive or, in accumulator and data together |
| Crc32.UpdateIsBijective | src/transport/internal/common/transport_crc.c:16-33 | For any data, updating is a bijection of the accumulator |
| Crc32.BurstsAreDetected | src/transport/internal/common/transport_crc.c:40-44 | Messages of equal length that differ, and only within 32 consecutive bits, have different checksums |
| Crc32.GeneratorBurstIsMissed | src/transport/internal/common/transport_crc.c:40-44 | The bound is exact: in any message a 33-bit burst shaped like the generator goes unnoticed |
| Crc32.RightTrailerLeavesGoodFcs | src/transport/internal/common/transport_crc.c:35-44 | Updating over data and its little-endian checksum leaves 0xDEBB20E3, the good FCS of RFC 1662, appendix C.3 |
| Crc32.ResidueDecidesTrailer | src/transport/internal/common/transport_crc.c:35-44 | A four-byte trailer leaves that value if and only if it is the little-endian checksum |
| ControlOutput.Slot.ValidateState | src/transport/internal/mvp/transport_control_output_mvp.c:20-46 | Finds a corrupted lifecycle and records the fault in both views |
| ControlOutput.Slot.PublishEncoded | src/transport/internal/mvp/transport_control_output_mvp.c:48-83 | Fills an idle slot, absorbs a repeat of the item held, refuses another |
| ControlOutput.Slot.PeekOutput | src/transport/internal/mvp/transport_control_output_mvp.c:85-126 | Copies and pins the item, or reports its size |
| ControlOutput.Slot.CommitOutput | src/transport/internal/mvp/transport_control_output_mvp.c:128-152 | Releases a peeked item and only a peeked one |
| ControlOutput.Slot.Reset | src/transport/internal/mvp/transport_control_output_mvp.c:154-165 | Empties the slot, whatever its state |
| ControlOutput.Slot.GetPendingStatus | src/transport/internal/mvp/transport_control_output_mvp.c:167-191 | Pending exactly when a sound slot is not idle |
| ControlOutput.RunsConserveAndNeverFault | src/transport/internal/mvp/transport_control_output_mvp.c:20-165 | From a sound slot no run records a fault, and committed items with the slot's contents are the items that entered since the last reset |
| ControlOutput.PeekedItemIsPinned | src/transport/internal/mvp/transport_control_output_mvp.c:74-126 | Whatever is published, a peeked item stays the same until commit or reset |
| ControlOutput.FaultExactlyWhenCorruptionIsSeen | src/transport/internal/mvp/transport_control_output_mvp.c:9-165 | From any slot, a run ends with the fault recorded if and only if the slot was corrupted at the start and an operation looked at it before the first reset; a publication of a wrong size does not look |
| Servicing.TransportServicer.PeekOutput | python/hil_rig_protocol/transport.py:490-534 | Query, then copy: takes the slot's item out, pinning it there; a corrupted slot is an error that records the fault |
| Servicing.TransportServicer.ServiceOutputOnce | examples/python/transport_servicing.py:187-218 | From any slot: offers exactly the remaining suffix, keeps the accepted count, and commits once after the last byte; a status other than OK and NOT_READY is raised |
| Servicing.TransportServicer.OfferReceived | examples/python/transport_servicing.py:146-161 | Offers retained and new bytes in order, drops exactly the consumed prefix and reports the parser's result; a corrupted parser consumes nothing |
| Servicing.TransportServicer.InvalidateExternalState | examples/python/transport_servicing.py:104-114 | Discards all caller-owned bytes |
| Servicing.TransportServicer.Reset | examples/python/transport_servicing.py:139-144 | From any state, discards caller-owned bytes and empties both transport parts |
| Delivery.DeliversInOrderOnce | examples/python/transport_servicing.py:146-218 | In every run the bodies consumed, and the one held, are those of the published items, in order, each once, with nothing dropped, up to some point |
| Delivery.DrainedLinkDeliveredEverything | examples/python/transport_servicing.py:146-218 | Once nothing waits anywhere, every published body has been delivered or is held |
| Delivery.EveryLinkCanBeDrained | examples/python/transport_servicing.py:146-218 | From every reachable link some writes, arrivals and takings, and no publication, leave nothing waiting and nothing held |
| Delivery.EveryPublicationCanBeDelivered | examples/python/transport_servicing.py:146-218 | After any run, some further steps deliver exactly the bodies published so far, in order, each once |
| Delivery.Perform | examples/python/transport_servicing.py:146-218 | Every run keeps the byte ledgers: written bytes are the committed items and the written part of the pending one, arrived bytes are those parsed and those retained |
| Delivery.WrittenIsStartOfPublished | examples/python/transport_servicing.py:195-211 | The bytes written out are the start of the published items, back to back |
| Delivery.ResetStartsRun | examples/python/transport_servicing.py:139-144 | A reset of both ends starts a run |
| Documented.AcceptedExactlyWhenDocumented | docs/application_layer/application_wire_format.md:59-77 | Decoding accepts a byte string as message m if and only if m has a documented content in the envelope of its class, the bytes are the documented table of m, and m fits the context and the storage |
| Documented.ValidExactlyWhenDocumented | src/application/application.c:743-813 | The typed validator accepts exactly the messages with a documented content in the envelope of their class, an Error with a tick belonging to a test |
| EnvelopeRules.EnvelopeFieldsExact | src/application/application_message.c:25-139 | For any type, subtype and presence byte: the status by the binding's table of sixteen classes, the unknown type first, then the subtype, then the Test-ID |
| EnvelopeRules.AcceptedExactlyWhenBuilt | python/hil_rig_protocol/application.py:157-257 | The codec accepts exactly the envelopes that the binding writes for some value of some message class |
| EnvelopeRules.CommonFieldsExact | src/application/application_message.c:141-187 | The envelope status of a typed message by its class; the only rule about the body is that an Error with a tick has a Test-ID |
| TypedMessages.ValidExactlyWhenSaysSomething | src/application/application_validation.c:677-720 | A body is valid if and only if it is some typed content: named categories and conditions, flags on or off, a tick that is there or not, records carrying peripheral values, within the context's limits |
| TypedMessages.ContentIsUnique | python/hil_rig_protocol/application_types.py:813-1000 | A body says only one thing |
| TypedMessages.RefusedBody | src/application/application_validation.c:961-990 | The status of every invalid body: when it is INCONSISTENT_TICK, when NOT_IMPLEMENTED, and VALIDATION_FAILED otherwise |
| PeripheralValues.AcceptedExactlyWhenSpelled | src/application/application_validation.c:485-675 | A record is accepted if and only if its data is within the limit and spells a sensible value that its peripheral carries on its channel in that direction |
| PeripheralValues.ValueIsUnique | docs/application_layer/application_wire_format.md:431-437 | Data spells at most one value for its peripheral |
| PeripheralValues.RefusedFields | src/application/application_validation.c:570-675 | The status of a refused record: NOT_IMPLEMENTED exactly for I2C data within the limit, VALIDATION_FAILED otherwise |
| CanFrames.AcceptedExactlyWhenFrames | src/application/application_validation.c:529-549 | A CAN payload is well-formed if and only if it packs frames with an identifier up to 0x7FF, a length up to 8 and eight data bytes |
| CanFrames.UnpackThenPack | src/application/application_validation.c:536-547 | Unpacking a well-formed payload gives valid frames that pack back to it |
| CanFrames.PackThenUnpack | src/application/application_validation.c:536-547 | Packing valid frames gives a well-formed payload that unpacks to them |
| CanFrames.FramesAreUnique | src/application/application_validation.c:536-547 | The frames a payload packs are unique |
| RecordLists.AcceptedExactlyWhenDistinct | src/application/application_validation.c:702-720 | A record list is accepted if and only if each record is and no two are for the same channel |
| RecordLists.RefusedListStops | src/application/application_validation.c:702-720 | A refused list has a first record that stops it, behind an accepted list; a repeated or unknown channel or its fields give the status |
| LittleEndian.FieldsAreDigits | src/application/application_internal.h:233-254 | What is written into 16-bit and 32-bit fields are the base-256 digits of the value, least significant first |
| LittleEndian.ShortReadsValue | src/application/application_internal.h:234-244 | A 16-bit read gives the number the two digits stand for |
| LittleEndian.LongReadsValue | src/application/application_internal.h:247-260 | A 32-bit read gives the number the four digits stand for |
| WireTables.MessageIsTable | docs/application_layer/application_wire_format.md:28-43 | The wire form of every message whose fields fit is the documented table, byte for byte with its numbers written out |
| WireTables.PayloadIsTable | docs/application_layer/application_wire_format.md:406-614 | The payload of each modelled family is its documented table |
| WireTables.RecordsAreTables | docs/application_layer/application_wire_format.md:417-429 | A serialised record list is the tables of its records back to back, each padded to a multiple of four |
| WireVectors.GlobalErrorIsRead | tests/python/test_application_response_error.py:105-118 | The golden bytes of an Error without Test-ID and tick are decoded as that Error |
| WireVectors.OldResponseIsRead | tests/python/test_application_codec.py:312-315 | The golden bytes of a 0.1.0 discovery response are decoded as that response |
| WireVectors.FaultReportIsRead | tests/c/application/test_application_variable_result.cpp:257-285 | The golden bytes of a Variable Test Result without records, for any Test-ID, are decoded as that result |
| WireVectors.FullFrameIsRead | src/application/application_validation.c:536-547 | An Update Instruction with one CAN frame of identifier 0x123 and eight data bytes, written out, is decoded as that update |
| MessageRefusals.EnvelopeRefusal | src/application/application_message.c:236-294 | Which envelopes are accepted, and for every other one the status of the first thing wrong with it |
| MessageRefusals.PrefixIsTruncated | src/application/application.c:274-284 | Every proper prefix of a message that is read is refused as truncated by the decoder and the storage query |
| MessageRefusals.ExtensionIsMalformed | src/application/application.c:274-289 | Every message that is read is malformed with any bytes behind it, or of invalid length when that exceeds the context limit |
| MessageRefusals.NotAdmitted | src/application/application.c:698-715 | An unpublished context reads nothing, and a published one nothing above its limit |
| MessageRefusals.ForeignEnvelopeIsMalformed | src/application/application_message.c:296-325 | A valid discovery response whose envelope version is not the one it reports is malformed |
| MessageRefusals.MisshapenIsMalformed | src/application/application_decoding.c:263-365 | A payload too short for its fixed fields, with a reserved byte set, or of another length than it says is malformed |
| MessageRefusals.ResponseRefusal | src/application/application_decoding.c:121-172 | A discovery response is refused as invalid exactly when a complete span exceeds the limit |
| MessageRefusals.LengthOverflowIsInvalid | src/application/application.c:274-279 | A payload length that takes the message beyond the size type is of invalid length before any byte is missed |
| MessageRefusals.StorageOverflowIsInvalidLength | src/application/application_decoding.c:312-330 | Valid records whose decode storage exceeds the size type are refused with INVALID_LENGTH |
| MessageRefusals.ScannedBody | src/application/application.c:166-249 | The scan of any body's wire form, valid or not: the body, or the status of its refusal |
| MessageRefusals.WireIsJudgedAsMessage | src/application/application.c:883-997 | The bytes of any message with a consistent envelope, valid or not, are judged as the typed message is: accepted if valid, else refused with the validator's status, an Error's span being measured first |
| RecordRefusals.ScanOfWire | src/application/application_decoding.c:181-261 | The scan of well-formed records with anything behind them gives the validator's status of the first bad one, or goes on behind them |
| RecordRefusals.LayoutFaultIsMalformed | src/application/application_decoding.c:192-258 | Behind accepted records, bytes too many, a record missing or cut short, or one without data make the list malformed |
| RecordRefusals.BadPaddingIsMalformed | src/application/application_decoding.c:236-244 | A record acceptable but for a nonzero padding byte is malformed |
| CodecLaws.EncodeVerdictExact | src/application/application.c:456-534 | Every status of encoding, in order: the validator's, 23 bytes for the envelope, the library's own version 0.4.0, the size type, the buffer and the limit |
| CodecLaws.SizeVerdictExact | src/application/application.c:408-454 | Every status of the size query: only the byte-span families are validated, and the fields of records play no part |
| CodecLaws.BodyEncodersRefuse | src/application/application_encoding.c:584-669 | Called on any body, valid or not, the body encoders refuse exactly what they check themselves, in this order: their own validation, the version, the size type, the space, and fields that do not fit the wire |
| CodecLaws.HeaderBeforeBody | src/application/application_message.c:189-234 | The envelope written before the body is the message's own with a zero length |
| CodecLaws.StorageIsDescriptorsAndBytes | src/application/application_decoding.c:312-330 | The decode storage of every modelled family, written out |
| PythonCodec.BuiltEnvelopeIsAccepted | python/hil_rig_protocol/application.py:157-257 | The envelope checks accept a message if and only if the binding builds its envelope and it is not an Error with a tick but no Test-ID |
| PythonCodec.KnownNumbers | python/hil_rig_protocol/application_types.py:18-32 | The binding knows exactly the numbers that carry a value, category or condition, I2C and the sentinels |
| StreamParser.ValidStatesArePhases | src/transport/internal/common/transport_parser.c:5-14 | The validity check accepts exactly the field values of the three phases |
| StreamSplit.PushAnswersForStream | src/transport/internal/common/transport_parser.c:71-114 | In every run the answer to a push is decided by the bytes accepted: whether the unfinished segment has outgrown the capacity, and what became of the one just closed |
| StreamSplit.PushReportsPhase | src/transport/internal/common/transport_parser.c:42-68 | From any phase, a push that takes in bytes answers DISCARDING if and only if it ends discarding, and BODY_READY if and only if it ends with a body |
| Crc32.EmptyMessageHasZeroChecksum | tests/c/unit/test_transport_wire.cpp:198-203 | The checksum of the empty message is zero |
| Crc32.CheckValue | tests/c/unit/test_transport_wire.cpp:200-201 | The checksum of the digits 123456789 is the published 0xCBF43926 |
| Crc32.LeadingByteIsSeen | src/transport/internal/common/transport_crc.c:11-14 | Because of the all-ones start any byte put in front of any message, a zero byte included, changes its checksum |
| ControlOutput.PublishAnswers | src/transport/internal/mvp/transport_control_output_mvp.c:48-83 | A sound slot answers OK if and only if an item of 1 to 20 bytes then waits in it; another size is invalid, another item waiting makes it NOT_READY, and what waits is never changed |
| ControlOutput.PeekAnswers | src/transport/internal/mvp/transport_control_output_mvp.c:85-126 | A sound slot shows the waiting item if and only if there is one and it fits; every other status exactly |
| ControlOutput.CommitAnswers | src/transport/internal/mvp/transport_control_output_mvp.c:128-152 | A sound slot releases its item if and only if it was peeked |
| ControlOutput.CorruptedSlotAnswers | src/transport/internal/mvp/transport_control_output_mvp.c:20-152 | A corrupted slot answers every well-formed call with INTERNAL_ERROR |
| ControlOutput.SoundExactlyWhenReachable | src/transport/internal/mvp/transport_control_output_mvp.c:20-46 | The lifecycle check accepts exactly the states and sizes that operations on an empty slot can reach |
| ControlOutput.PublicationEntersOrRepeats | src/transport/internal/mvp/transport_control_output_mvp.c:62-82 | A publication answered OK enters the slot or repeats the last item that did; any other leaves no trace |
| ControlOutput.AcknowledgedIsPublished | src/transport/internal/mvp/transport_control_output_mvp.c:48-165 | Over every run without a reset, the items that entered the slot are exactly those whose publication was answered OK |
| Servicing.ServiceAnswers | examples/python/transport_servicing.py:187-218 | Every result of a servicing attempt, from any slot: the writer's count, the bytes written, when a commit is reported and as what, and when a status is raised |
| Delivery.AcknowledgedIsPublished | examples/python/transport_servicing.py:146-218 | In every run an item whose publication was answered OK is among those published |
| Delivery.EveryAcknowledgedItemCanBeDelivered | examples/python/transport_servicing.py:146-218 | Every publication ever answered OK is delivered by some further steps |
| Delivery.ServiceReports | examples/python/transport_servicing.py:187-218 | On a link in use servicing never raises, counts exactly the bytes written, and reports a commit, as OK, exactly when an item is committed |

## Left out

- The other Application families (Test Configuration, Test Instruction, Execution and Global Control, Finalize, Test Result, Response, Rig Status, Arbitrary Control, Run Report, System Information Request): long fixed-offset field tables. The façade's verdicts name such a type (`OtherFamily`, `ElsewhereDecoded`, `ElsewhereSized`, `OutsideModel`) and claim nothing more about it. The members below are the ones this narrows.
- Messages.ValidateMessage: covers the five modelled families.
- Scanners.DecodeStorageSize: covers the five modelled families; for another type it states the envelope and length checks only.
- Scanners.ValidateEncodedMessage: covers the five modelled families; for another type it states the envelope and length checks only.
- EnvelopeRules.CommonFieldsExact: covers the five modelled families, so the Test-ID rules that look into a Response or a Rig Status are left out.
- Encoding.BodySize: covers the five modelled families.
- Encoding.EncodedSize: covers the five modelled families.
- Encoding.BodyEncode: covers the five modelled families; a discovery response must keep the size sum its encoder leaves unchecked within the size type.
- Encoding.SystemInfoResponseEncode: the code sums both span sizes unchecked, so the sum must not exceed the size type's largest value; with a size type of more than 17 bits it never does.
- Decoding.BodyDecode: covers the five modelled families.
- Application.EncodeMessage: covers the five modelled families.
- Application.DecodeMessage: covers the five modelled families; for another type it states the envelope and length checks only.
- PythonCodec.ReadNative: covers the five modelled families.
- PythonCodec.Decode: covers the five modelled families.
- PythonCodec.Encode: covers the five modelled families.
- Null-pointer arguments: every pointer handed in is modelled as present, and a null storage pointer as storage of size zero.
- Crc32.Update: the null-data guard of the source is not modelled.
- Servicing.TransportServicer.PeekOutput: the output arbiter behind the native call, and the binding's comparison with the configured frame limit, are not part of this model.
- Servicing.TransportServicer.ServiceOutputOnce: the clock argument has no effect on the parts modelled.
- Servicing.TransportServicer.OfferReceived: the receive coordinator between servicer and parser is not part of this model, so the parser is driven directly and its result stands for the receive status.
- Descriptors are written and read whole; the order in which the code fills the fields of one descriptor is not modelled.
- COBS, the frame codec, handshake, session, reliability, the event queue, the output arbiter and the receive coordinator are not part of this model.
- The extended transport profile: unimplemented in the source.
- I2C payloads: the code answers NOT_IMPLEMENTED, and so does the model.
- Endpoint workflow rules (ticks, START ordering, reports): documented, not enforced by the modelled code.
- CFFI lifetimes, thread ownership, exception plumbing, packaging, physical I/O and real clocks.

/**
 The bounded scanners and the two façade operations built on them that need no storage: the decode-storage
 query and the validation of encoded bytes.
 */
module Scanners {
  import opened Wire
  import opened Records
  import opened RecordScan
  import opened StorageSize
  import opened Messages
  import opened Parsing
  import opened Envelopes

  /** A scanner answers as the parse of its payload says; a refusal reports no storage. */
  ghost predicate Answers(p: Platform, parsed: Parsed, status: Status, storage: nat)
    requires p.Valid()
  {
    match parsed
    case Parsed(body) => status == Ok && storage == BodyStorage(p, body)
    case Unparsed(reason) => status == reason && status != Ok && storage == 0
    case Unmodelled => false
  }

  method UpdateInstructionScan(p: Platform, ctx: Context, payload: seq<byte>) returns (status: Status, storage: nat)
    requires p.Valid() && |payload| <= 0xFFFF
    ensures Answers(p, ParseUpdate(p, ctx, payload), status, storage)
  {
    if |payload| < UPDATE_HEADER {
      return MalformedMessage, 0;
    }
    var count := payload[4] as int;
    var tick := ReadU32(payload, 0);
    var flags := payload[5];
    var reserved := ReadU16(payload, 6);
    if reserved != 0 {
      return MalformedMessage, 0;
    }
    if tick >= ctx.maxTicks {
      return ValidationFailed, 0;
    }
    if flags > 1 {
      return ValidationFailed, 0;
    }
    if count == 0 {
      return ValidationFailed, 0;
    }
    var total;
    status, total := AlignedRecordsScan(p, ctx, Operations, payload, UPDATE_HEADER, count);
    TallyIsDataSize(ctx, Operations, payload, UPDATE_HEADER, count, {}, 0);
    if status != Ok {
      return status, 0;
    }
    status, storage := DescriptorStorage(p, Operations, count, total);
  }

  method VariableTestResultScan(p: Platform, ctx: Context, payload: seq<byte>) returns (status: Status, storage: nat)
    requires p.Valid() && |payload| <= 0xFFFF
    ensures Answers(p, ParseCaptured(p, ctx, payload), status, storage)
  {
    if |payload| < RESULT_HEADER {
      return MalformedMessage, 0;
    }
    var count := payload[4] as int;
    var tick := ReadU32(payload, 0);
    var condition := payload[5];
    var flags := payload[6];
    var reserved := payload[7];
    var problemDetail := ReadU32(payload, 8);
    if reserved != 0 {
      return MalformedMessage, 0;
    }
    if tick >= ctx.maxTicks {
      return ValidationFailed, 0;
    }
    if flags > 1 {
      return ValidationFailed, 0;
    }
    if !ConditionIsDefined(condition) {
      return ValidationFailed, 0;
    }
    if condition == CONDITION_OK && problemDetail != 0 {
      return ValidationFailed, 0;
    }
    if count == 0 {
      if |payload| != RESULT_HEADER {
        return MalformedMessage, 0;
      }
      return Ok, 0;
    }
    var total;
    status, total := AlignedRecordsScan(p, ctx, Captures, payload, RESULT_HEADER, count);
    TallyIsDataSize(ctx, Captures, payload, RESULT_HEADER, count, {}, 0);
    if status != Ok {
      return status, 0;
    }
    status, storage := DescriptorStorage(p, Captures, count, total);
  }

  /** Multiply, align and add, each step checked against the target's size type. */
  method DescriptorStorage(p: Platform, kind: Kind, count: nat, total: nat) returns (status: Status, storage: nat)
    requires p.Valid()
    ensures var exact := PoolOffset(p, kind, count) + total;
            if exact <= p.sizeMax then status == Ok && storage == exact else status == InvalidLength && storage == 0
    ensures (status == Ok) == ListStorage(p, kind, count, total).Some?
  {
    ListStorageIsExact(p, kind, count, total);
    var descriptors := CheckedMul(p, count, DescriptorSize(p, kind));
    if descriptors.None? {
      return InvalidLength, 0;
    }
    var pool := AlignUp(p, descriptors.value, p.alignment);
    if pool.None? {
      return InvalidLength, 0;
    }
    var sum := CheckedAdd(p, pool.value, total);
    if sum.None? {
      return InvalidLength, 0;
    }
    return Ok, sum.value;
  }

  method ErrorScan(p: Platform, ctx: Context, payload: seq<byte>) returns (status: Status, storage: nat)
    requires p.Valid()
    ensures Answers(p, ParseError(ctx, payload), status, storage)
  {
    if |payload| < ERROR_FIXED {
      return MalformedMessage, 0;
    }
    var diagnostic := payload[11] as int;
    var complete := CheckedAdd(p, ERROR_FIXED, diagnostic);
    if complete.None? {
      assert false;
    } else {
      if |payload| < complete.value || |payload| != complete.value {
        return MalformedMessage, 0;
      }
      if diagnostic > ctx.maxVariable {
        return ValidationFailed, 0;
      }
      return Ok, diagnostic;
    }
  }

  method SystemInfoResponseScan(p: Platform, ctx: Context, payload: seq<byte>) returns (status: Status, storage: nat)
    requires p.Valid()
    ensures Answers(p, ParseInfo(ctx, payload), status, storage)
  {
    if |payload| < INFO_FIXED + 2 {
      return MalformedMessage, 0;
    }
    var offset := INFO_FIXED;
    var diagnostic := payload[offset] as int;
    offset := offset + 1;
    var remaining: nat := |payload| - offset;
    if remaining < diagnostic {
      return MalformedMessage, 0;
    }
    if diagnostic > ctx.maxVariable {
      return ValidationFailed, 0;
    }
    offset := offset + diagnostic;
    remaining := |payload| - offset;
    if remaining < 1 {
      return MalformedMessage, 0;
    }
    var hash := payload[offset] as int;
    offset := offset + 1;
    remaining := |payload| - offset;
    if remaining < hash {
      return MalformedMessage, 0;
    }
    if hash > ctx.maxVariable {
      return ValidationFailed, 0;
    }
    offset := offset + hash;
    var total := CheckedAdd(p, diagnostic, hash);
    if offset != |payload| || total.None? {
      return MalformedMessage, 0;
    }
    return Ok, total.value;
  }

  method ArbitraryDataScan(p: Platform, ctx: Context, payload: seq<byte>) returns (status: Status, storage: nat)
    requires p.Valid() && |payload| <= 0xFFFF
    ensures Answers(p, ParseArbitrary(ctx, payload), status, storage)
  {
    if |payload| < ARBITRARY_PREFIX {
      return MalformedMessage, 0;
    }
    var length := ReadU16(payload, 4);
    var expected := CheckedAdd(p, ARBITRARY_PREFIX, length);
    if expected.None? || |payload| != expected.value {
      return MalformedMessage, 0;
    }
    if length > ctx.maxVariable {
      return ValidationFailed, 0;
    }
    return Ok, length;
  }

  method TestIdIsZero(id: TestId) returns (zero: bool)
    ensures zero <==> id == Zeros(TEST_ID_SIZE)
  {
    var i := 0;
    while i < TEST_ID_SIZE
      invariant 0 <= i <= TEST_ID_SIZE
      invariant forall k :: 0 <= k < i ==> id[k] == 0
    {
      if id[i] != 0 {
        return false;
      }
      i := i + 1;
    }
    return true;
  }

  method HeaderDecoding(bytes: seq<byte>) returns (header: Header)
    ensures header == ParseHeader(bytes)
  {
    if |bytes| < HEADER_SIZE {
      return BadHeader(TruncatedMessage);
    }
    var hasTestId := bytes[2];
    if hasTestId > 1 {
      return BadHeader(MalformedMessage);
    }
    var testId: TestId := bytes[3..19];
    var zero := TestIdIsZero(testId);
    if hasTestId == 0 && !zero {
      return BadHeader(InconsistentTestId);
    }
    var status := EnvelopeFields(bytes[19], bytes[20], hasTestId);
    if status != Ok {
      return BadHeader(status);
    }
    if !IsDiscovery(bytes[19]) && (bytes[0] != VERSION_MAJOR || bytes[1] != VERSION_MINOR) {
      return BadHeader(VersionMismatch);
    }
    return Header(Envelope(bytes[0], bytes[1], hasTestId, testId, bytes[19], bytes[20], ReadU16(bytes, 21)));
  }

  /** The body scanners, by message type. */
  method BodyScan(p: Platform, ctx: Context, messageType: byte, payload: seq<byte>)
    returns (modelled: bool, status: Status, storage: nat)
    requires p.Valid() && |payload| <= 0xFFFF
    ensures modelled <==> !ParseBody(p, ctx, messageType, payload).Unmodelled?
    ensures modelled ==> Answers(p, ParseBody(p, ctx, messageType, payload), status, storage)
  {
    modelled, status, storage := true, Ok, 0;
    if messageType == SYSTEM_INFO_RESPONSE {
      status, storage := SystemInfoResponseScan(p, ctx, payload);
    } else if messageType == UPDATE_INSTRUCTION {
      status, storage := UpdateInstructionScan(p, ctx, payload);
    } else if messageType == VARIABLE_TEST_RESULT {
      status, storage := VariableTestResultScan(p, ctx, payload);
    } else if messageType == ERROR_MESSAGE {
      status, storage := ErrorScan(p, ctx, payload);
    } else if messageType == ARBITRARY_DATA {
      status, storage := ArbitraryDataScan(p, ctx, payload);
    } else {
      modelled := false;
    }
  }

  /** `Decode_Storage_Size`. */
  method DecodeStorageSize(p: Platform, ctx: Context, bytes: seq<byte>) returns (sizing: Sizing)
    requires p.Valid()
    ensures sizing == StorageVerdict(p, ctx, bytes)
  {
    if !ctx.initialized {
      return Unsized(Uninitialized);
    }
    if |bytes| > ctx.maxMessage {
      return Unsized(InvalidLength);
    }
    var header := HeaderDecoding(bytes);
    if header.BadHeader? {
      return Unsized(header.status);
    }
    var e := header.envelope;
    var total := CheckedAdd(p, HEADER_SIZE, e.length);
    if total.None? {
      return Unsized(InvalidLength);
    }
    if total.value > |bytes| {
      return Unsized(TruncatedMessage);
    }
    if total.value != |bytes| {
      return Unsized(MalformedMessage);
    }
    var payload := bytes[HEADER_SIZE..];
    var modelled, status, storage := BodyScan(p, ctx, e.messageType, payload);
    if !modelled {
      return ElsewhereSized(e.messageType);
    }
    if status != Ok {
      return Unsized(status);
    }
    if e.messageType == SYSTEM_INFO_RESPONSE && |payload| < 4 {
      assert false;
    }
    if e.messageType == SYSTEM_INFO_RESPONSE && (ReadU16(payload, 0) != e.major || ReadU16(payload, 2) != e.minor) {
      return Unsized(MalformedMessage);
    }
    return Sized(storage);
  }

  /** The validator's own reading of a scanned discovery response, straight from the payload. */
  method ValidateEncodedSystemInfoResponse(ctx: Context, e: Envelope, payload: seq<byte>) returns (status: Status)
    requires ParseInfo(ctx, payload).Parsed?
    ensures status == if !DiscoveryAgrees(e, ParseInfo(ctx, payload).body) then MalformedMessage
                      else SystemInfoStatus(ctx, ParseInfo(ctx, payload).body)
  {
    var offset := INFO_FIXED;
    var diagnosticSize := payload[offset] as int;
    offset := offset + 1;
    var diagnostic := payload[offset..offset + diagnosticSize];
    offset := offset + diagnosticSize;
    var hashSize := payload[offset] as int;
    offset := offset + 1;
    if offset + hashSize != |payload| {
      assert false;
    }
    var data := SystemInfo(ReadU16(payload, 0), ReadU16(payload, 2), ReadU16(payload, 4), ReadU16(payload, 6),
                           ReadU16(payload, 8), ReadU16(payload, 10), diagnostic, payload[offset..offset + hashSize]);
    assert payload[offset..offset + hashSize] == payload[offset..];
    if data.protocolMajor != e.major || data.protocolMinor != e.minor {
      return MalformedMessage;
    }
    return SystemInfoStatus(ctx, data);
  }

  method ValidateEncodedError(ctx: Context, e: Envelope, payload: seq<byte>) returns (status: Status)
    requires ParseError(ctx, payload).Parsed?
    ensures status == EncodedBodyStatus(ctx, Message(e.hasTestId, e.testId, e.subtype, ParseError(ctx, payload).body))
  {
    var diagnosticSize := payload[11] as int;
    var data := Error(payload[0], payload[1], payload[2], ReadU32(payload, 3), ReadU32(payload, 7),
                      payload[ERROR_FIXED..ERROR_FIXED + diagnosticSize]);
    assert payload[ERROR_FIXED..ERROR_FIXED + diagnosticSize] == payload[ERROR_FIXED..];
    if data.hasTick == 1 && e.hasTestId == 0 {
      return InconsistentTestId;
    }
    return ErrorStatus(ctx, data);
  }

  /** `Validate_Encoded_Message`. The second header parse cannot fail. */
  method ValidateEncodedMessage(p: Platform, ctx: Context, bytes: seq<byte>) returns (sizing: Sizing)
    requires p.Valid()
    ensures sizing == EncodedVerdict(p, ctx, bytes)
  {
    if !ctx.initialized {
      return Unsized(Uninitialized);
    }
    if |bytes| > ctx.maxMessage {
      return Unsized(InvalidLength);
    }
    sizing := DecodeStorageSize(p, ctx, bytes);
    if !sizing.Sized? {
      return;
    }
    var header := HeaderDecoding(bytes);
    if header.BadHeader? {
      assert false;
    } else {
      var e, payload := header.envelope, bytes[HEADER_SIZE..];
      if e.messageType == SYSTEM_INFO_RESPONSE {
        var status := ValidateEncodedSystemInfoResponse(ctx, e, payload);
        if status != Ok {
          sizing := Unsized(status);
        }
      } else if e.messageType == ERROR_MESSAGE {
        var status := ValidateEncodedError(ctx, e, payload);
        if status != Ok {
          sizing := Unsized(status);
        }
      }
    }
  }
}

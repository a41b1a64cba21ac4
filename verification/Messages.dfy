/**
 Complete Application messages: the modelled bodies, their wire form, the envelope, and the validation of
 a typed message. Modelled bodies are the two record families and the families with byte spans: Arbitrary
 Data, Error and System Information Response.
 */
module Messages {
  import opened Wire
  import opened Records
  import opened RecordScan
  import opened StorageSize

  const SYSTEM_INFO_REQUEST := 1
  const SYSTEM_INFO_RESPONSE := 2
  const TEST_CONFIGURATION := 16
  const TEST_INSTRUCTION := 17
  const EXECUTION_CONTROL := 19
  const GLOBAL_CONTROL := 20
  const UPDATE_INSTRUCTION := 21
  const FINALIZE_TEST_UPLOAD := 22
  const TEST_RESULT := 32
  const VARIABLE_TEST_RESULT := 34
  const RUN_REPORT := 35
  const RESPONSE := 48
  const ERROR_MESSAGE := 49
  const RIG_STATUS := 50
  const ARBITRARY_CONTROL := 64
  const ARBITRARY_DATA := 65

  const SUBTYPE_NONE := 0
  const SUBTYPE_BASIC := 1

  const VERSION_MAJOR := 0
  const VERSION_MINOR := 4
  const VERSION_PATCH := 0

  const HEADER_SIZE := 23
  const TEST_ID_SIZE := 16
  const UPDATE_HEADER := 8
  const RESULT_HEADER := 12
  const ARBITRARY_PREFIX := 6
  const ERROR_FIXED := 12
  const INFO_FIXED := 12
  const MIN_MESSAGE := 28
  const MAX_MESSAGE := 65535
  const MAX_TICKS := 1000000

  const CONDITION_OK := 0
  const CONDITION_PARTIAL := 1
  const CONDITION_EXECUTION_PROBLEM := 2

  /** The limits `Init` lets into a context. */
  predicate WithinLimits(ctx: Context) {
    MIN_MESSAGE <= ctx.maxMessage <= MAX_MESSAGE && ctx.maxVariable <= 65535 && ctx.maxTicks <= MAX_TICKS
  }

  /** Every context is one that `Init` published, or an unpublished one. */
  predicate Configured(ctx: Context) {
    ctx.initialized ==> WithinLimits(ctx)
  }

  type TestId = id: seq<byte> | |id| == TEST_ID_SIZE witness Zeros(TEST_ID_SIZE)

  /** The record count is one byte. */
  type RecordList = records: seq<Record> | |records| <= 255

  datatype Body =
    | Update(tick: u32, flags: byte, operations: RecordList)
    | Captured(tick: u32, condition: int, flags: byte, problemDetail: u32, captures: RecordList)
    | Arbitrary(dataId: u32, payload: Span)
    | Error(category: int, recoverable: byte, hasTick: byte, tick: u32, detail: u32, diagnostic: Span)
    | SystemInfo(
        protocolMajor: u16, protocolMinor: u16, protocolPatch: u16,
        firmwareMajor: u16, firmwareMinor: u16, firmwarePatch: u16, diagnostic: Span, gitHash: Span)

  datatype Message = Message(hasTestId: byte, testId: TestId, subtype: int, body: Body)

  function TypeOf(body: Body): byte {
    match body
    case Update(_, _, _) => UPDATE_INSTRUCTION
    case Captured(_, _, _, _, _) => VARIABLE_TEST_RESULT
    case Arbitrary(_, _) => ARBITRARY_DATA
    case Error(_, _, _, _, _, _) => ERROR_MESSAGE
    case SystemInfo(_, _, _, _, _, _, _, _) => SYSTEM_INFO_RESPONSE
  }

  // ---------------------------------------------------------------------------
  // Wire form
  // ---------------------------------------------------------------------------

  function SpanWire(span: seq<byte>): seq<byte> {
    [WireByte(|span|)] + span
  }

  function UpdateHeader(tick: u32, count: byte, flags: byte): (wire: seq<byte>)
    ensures |wire| == UPDATE_HEADER
  {
    U32Le(tick) + [count, flags] + U16Le(0)
  }

  function CapturedHeader(tick: u32, count: byte, condition: int, flags: byte, problemDetail: u32): (wire: seq<byte>)
    ensures |wire| == RESULT_HEADER
  {
    U32Le(tick) + [count, WireByte(condition), flags, 0] + U32Le(problemDetail)
  }

  function ErrorHeader(category: int, recoverable: byte, hasTick: byte, tick: u32, detail: u32): (wire: seq<byte>)
    ensures |wire| == ERROR_FIXED - 1
  {
    [WireByte(category), recoverable, hasTick] + U32Le(tick) + U32Le(detail)
  }

  function InfoHeader(major: u16, minor: u16, patch: u16, fwMajor: u16, fwMinor: u16, fwPatch: u16): (wire: seq<byte>)
    ensures |wire| == INFO_FIXED
  {
    U16Le(major) + U16Le(minor) + U16Le(patch) + U16Le(fwMajor) + U16Le(fwMinor) + U16Le(fwPatch)
  }

  function BodyWire(body: Body): seq<byte> {
    match body
    case Update(tick, flags, operations) =>
      UpdateHeader(tick, |operations|, flags) + RecordsWire(operations)
    case Captured(tick, condition, flags, problemDetail, captures) =>
      CapturedHeader(tick, |captures|, condition, flags, problemDetail) + RecordsWire(captures)
    case Arbitrary(dataId, payload) =>
      U32Le(dataId) + U16Le(|payload|) + payload
    case Error(category, recoverable, hasTick, tick, detail, diagnostic) =>
      ErrorHeader(category, recoverable, hasTick, tick, detail) + SpanWire(diagnostic)
    case SystemInfo(major, minor, patch, fwMajor, fwMinor, fwPatch, diagnostic, gitHash) =>
      InfoHeader(major, minor, patch, fwMajor, fwMinor, fwPatch) + SpanWire(diagnostic) + SpanWire(gitHash)
  }

  /** The envelope version: the library's own, except that a discovery response repeats its body's version. */
  function EnvelopeMajor(body: Body): byte {
    if body.SystemInfo? then WireByte(body.protocolMajor) else VERSION_MAJOR
  }

  function EnvelopeMinor(body: Body): byte {
    if body.SystemInfo? then WireByte(body.protocolMinor) else VERSION_MINOR
  }

  function IdWire(hasTestId: byte, testId: TestId): TestId {
    if hasTestId == 1 then testId else Zeros(TEST_ID_SIZE)
  }

  function HeaderWire(
      major: byte, minor: byte, hasTestId: byte, testId: TestId, messageType: byte, subtype: byte, length: u16):
    (wire: seq<byte>)
    ensures |wire| == HEADER_SIZE
  {
    [major, minor, hasTestId] + testId + [messageType, subtype] + U16Le(length)
  }

  /** The complete message on the wire; a body longer than the length field allows is never published. */
  function MessageWire(m: Message): (wire: seq<byte>)
    ensures |wire| == HEADER_SIZE + |BodyWire(m.body)|
  {
    HeaderWire(EnvelopeMajor(m.body), EnvelopeMinor(m.body), m.hasTestId, IdWire(m.hasTestId, m.testId),
               TypeOf(m.body), WireByte(m.subtype), |BodyWire(m.body)| % 0x1_0000)
    + BodyWire(m.body)
  }

  // ---------------------------------------------------------------------------
  // Validation of a typed message
  // ---------------------------------------------------------------------------

  predicate TypeIsDefined(messageType: int) {
    messageType in {
      SYSTEM_INFO_REQUEST, SYSTEM_INFO_RESPONSE, TEST_CONFIGURATION, TEST_INSTRUCTION, EXECUTION_CONTROL,
      GLOBAL_CONTROL, UPDATE_INSTRUCTION, FINALIZE_TEST_UPLOAD, TEST_RESULT, VARIABLE_TEST_RESULT, RUN_REPORT,
      RESPONSE, ERROR_MESSAGE, RIG_STATUS, ARBITRARY_CONTROL, ARBITRARY_DATA}
  }

  predicate IsDiscovery(messageType: int) {
    messageType == SYSTEM_INFO_REQUEST || messageType == SYSTEM_INFO_RESPONSE
  }

  predicate NeedsTestId(messageType: int) {
    messageType in {
      TEST_CONFIGURATION, TEST_INSTRUCTION, UPDATE_INSTRUCTION, FINALIZE_TEST_UPLOAD, EXECUTION_CONTROL,
      TEST_RESULT, RUN_REPORT, VARIABLE_TEST_RESULT}
  }

  function EnvelopeSyntax(messageType: int, subtype: int): Status {
    if !TypeIsDefined(messageType) then InvalidMessageType
    else if subtype != SUBTYPE_NONE && subtype != SUBTYPE_BASIC then InvalidSubtype
    else if subtype != (if IsDiscovery(messageType) then SUBTYPE_BASIC else SUBTYPE_NONE) then InvalidSubtype
    else Ok
  }

  function EnvelopeFields(messageType: int, subtype: int, hasTestId: byte): Status {
    var status := EnvelopeSyntax(messageType, subtype);
    if status != Ok then status
    else if hasTestId > 1 then InconsistentTestId
    else if IsDiscovery(messageType) || messageType == GLOBAL_CONTROL then
      if hasTestId == 0 then Ok else InconsistentTestId
    else if NeedsTestId(messageType) then
      if hasTestId == 1 then Ok else InconsistentTestId
    else Ok
  }

  function CommonFields(m: Message): Status {
    var status := EnvelopeFields(TypeOf(m.body), m.subtype, m.hasTestId);
    if status != Ok then status
    else if m.body.Error? && m.body.hasTick == 1 && m.hasTestId == 0 then InconsistentTestId
    else Ok
  }

  /** Spans with a one-byte length keep that limit below the configured one. */
  function U8Limit(ctx: Context): nat {
    if ctx.maxVariable < 255 then ctx.maxVariable else 255
  }

  function ErrorStatus(ctx: Context, body: Body): Status
    requires body.Error?
  {
    if !(1 <= body.category <= 6) || body.recoverable > 1 || body.hasTick > 1 then ValidationFailed
    else if body.hasTick == 0 && body.tick != 0 then InconsistentTick
    else if body.hasTick == 1 && body.tick >= ctx.maxTicks then InconsistentTick
    else Require(|body.diagnostic| <= U8Limit(ctx))
  }

  function SystemInfoStatus(ctx: Context, body: Body): Status
    requires body.SystemInfo?
  {
    if body.protocolMajor > 255 || body.protocolMinor > 255 then ValidationFailed
    else if |body.gitHash| > U8Limit(ctx) then ValidationFailed
    else Require(|body.diagnostic| <= U8Limit(ctx))
  }

  predicate ConditionIsDefined(condition: int) {
    condition == CONDITION_OK || condition == CONDITION_PARTIAL || condition == CONDITION_EXECUTION_PROBLEM
  }

  predicate UpdateFieldsOk(ctx: Context, tick: u32, flags: byte, count: nat) {
    tick < ctx.maxTicks && flags <= 1 && count != 0
  }

  predicate CapturedFieldsOk(ctx: Context, tick: u32, condition: int, flags: byte, problemDetail: u32) {
    && tick < ctx.maxTicks && flags <= 1 && ConditionIsDefined(condition)
    && (condition == CONDITION_OK ==> problemDetail == 0)
  }

  function BodyStatus(ctx: Context, body: Body): Status {
    match body
    case Update(tick, flags, operations) =>
      if !UpdateFieldsOk(ctx, tick, flags, |operations|) then ValidationFailed
      else ListVerdict(ctx, Operations, operations, {})
    case Captured(tick, condition, flags, problemDetail, captures) =>
      if !CapturedFieldsOk(ctx, tick, condition, flags, problemDetail) then ValidationFailed
      else ListVerdict(ctx, Captures, captures, {})
    case Arbitrary(_, payload) => Require(|payload| <= ctx.maxVariable)
    case Error(_, _, _, _, _, _) => ErrorStatus(ctx, body)
    case SystemInfo(_, _, _, _, _, _, _, _) => SystemInfoStatus(ctx, body)
  }

  function Validity(ctx: Context, m: Message): Status {
    if !ctx.initialized then Uninitialized
    else
      var status := CommonFields(m);
      if status != Ok then status else BodyStatus(ctx, m.body)
  }

  method ValidateMessage(ctx: Context, m: Message) returns (status: Status)
    ensures status == Validity(ctx, m)
  {
    if !ctx.initialized {
      return Uninitialized;
    }
    status := CommonFields(m);
    if status != Ok {
      return;
    }
    match m.body
    case Update(tick, flags, operations) =>
      if tick >= ctx.maxTicks || flags > 1 || |operations| == 0 {
        return ValidationFailed;
      }
      status := ValidateList(ctx, Operations, operations);
    case Captured(tick, condition, flags, problemDetail, captures) =>
      if tick >= ctx.maxTicks || flags > 1 || !ConditionIsDefined(condition) {
        return ValidationFailed;
      }
      if condition == CONDITION_OK && problemDetail != 0 {
        return ValidationFailed;
      }
      status := ValidateList(ctx, Captures, captures);
    case _ =>
      status := BodyStatus(ctx, m.body);
  }

  /** The bytes of decode storage a body takes. */
  function BodyStorage(p: Platform, body: Body): nat
    requires p.Valid()
  {
    match body
    case Update(_, _, operations) => StorageNeeded(p, Operations, operations)
    case Captured(_, _, _, _, captures) => StorageNeeded(p, Captures, captures)
    case Arbitrary(_, payload) => |payload|
    case Error(_, _, _, _, _, diagnostic) => |diagnostic|
    case SystemInfo(_, _, _, _, _, _, diagnostic, gitHash) => |diagnostic| + |gitHash|
  }

  /** A message without a Test-ID carries no Test-ID bytes on the wire. */
  predicate Canonical(m: Message) {
    m.hasTestId == 1 || m.testId == Zeros(TEST_ID_SIZE)
  }

  /** The message a reader of the wire form sees. */
  function OnTheWire(m: Message): Message {
    m.(testId := IdWire(m.hasTestId, m.testId))
  }
}

/**
 Concrete messages with every byte written out, each read as the value it documents: an Error outside any
 test, a discovery response of another version, an empty test result, and an update with a full CAN frame.
 */
module WireVectors {
  import opened Wire
  import opened LittleEndian
  import opened Records
  import opened RecordScan
  import opened StorageSize
  import opened Messages
  import opened Envelopes
  import C = CanFrames

  const NO_ID: TestId := [0, 0, 0, 0, 0, 0, 0, 0, 0, 0, 0, 0, 0, 0, 0, 0]

  lemma NoIdIsZeros()
    ensures NO_ID == Zeros(16)
  {
  }

  lemma ShortHeader(major: byte, minor: byte, has: byte, id: TestId, number: byte, subtype: byte, length: byte)
    ensures HeaderWire(major, minor, has, id, number, subtype, length)
         == [major, minor, has] + id + [number, subtype, length, 0]
  {
    assert U16Le(length) == [length, 0];
  }

  /** Envelope and payload put together, for a message with a payload of fewer than 256 bytes. */
  lemma Framed(m: Message, payload: seq<byte>)
    requires |payload| < 256 && BodyWire(m.body) == payload
    ensures MessageWire(m)
         == [EnvelopeMajor(m.body), EnvelopeMinor(m.body), m.hasTestId] + IdWire(m.hasTestId, m.testId)
            + [TypeOf(m.body), WireByte(m.subtype), |payload|, 0] + payload
  {
    ShortHeader(EnvelopeMajor(m.body), EnvelopeMinor(m.body), m.hasTestId, IdWire(m.hasTestId, m.testId),
                TypeOf(m.body), WireByte(m.subtype), |payload|);
    hide HeaderWire;
    hide BodyWire;
    hide IdWire;
    hide EnvelopeMajor;
    hide EnvelopeMinor;
    hide WireByte;
    hide U16Le;
  }

  // ---------------------------------------------------------------------------
  // An Error outside any test
  // ---------------------------------------------------------------------------

  const ERROR_PAYLOAD: seq<byte> := [5, 1, 0, 0, 0, 0, 0, 4, 3, 2, 1, 4, 0xDE, 0xAD, 0xBE, 0xEF]

  function GlobalError(): Message {
    Message(0, NO_ID, 0, Error(5, 1, 0, 0, 0x0102_0304, [0xDE, 0xAD, 0xBE, 0xEF]))
  }

  lemma GlobalErrorPayload()
    ensures BodyWire(GlobalError().body) == ERROR_PAYLOAD
  {
    assert U32Le(0) == [0, 0, 0, 0] && U32Le(0x0102_0304) == [4, 3, 2, 1];
    assert ErrorHeader(5, 1, 0, 0, 0x0102_0304) == ERROR_PAYLOAD[..11];
  }

  /** A recoverable protocol fault with detail 0x01020304 and neither tick nor Test-ID is read as that. */
  lemma GlobalErrorIsRead(p: Platform, ctx: Context)
    requires p.Valid() && ctx.initialized && Configured(ctx) && ctx.maxMessage >= 39 && ctx.maxVariable >= 4
    ensures DecodeVerdict(p, ctx, [0, 4, 0] + NO_ID + [49, 0, 16, 0] + ERROR_PAYLOAD, 4) == Decoded(GlobalError())
  {
    NoIdIsZeros();
    GlobalErrorPayload();
    Framed(GlobalError(), ERROR_PAYLOAD);
    assert Validity(ctx, GlobalError()) == Ok;
    hide BodyWire;
    WireIsDecoded(p, ctx, GlobalError(), 4);
  }

  // ---------------------------------------------------------------------------
  // A discovery response of another version
  // ---------------------------------------------------------------------------

  const INFO_PAYLOAD: seq<byte> := [0, 0, 1, 0, 0, 0, 2, 0, 3, 0, 4, 0, 1, 0xAA, 0]

  function OldResponse(): Message {
    Message(0, NO_ID, 1, SystemInfo(0, 1, 0, 2, 3, 4, [0xAA], []))
  }

  lemma OldResponsePayload()
    ensures BodyWire(OldResponse().body) == INFO_PAYLOAD
  {
    assert InfoHeader(0, 1, 0, 2, 3, 4) == INFO_PAYLOAD[..12];
  }

  /** Protocol 0.1.0 from firmware 2.3.4, with one diagnostic byte and no hash. */
  lemma OldResponseIsRead(p: Platform, ctx: Context)
    requires p.Valid() && ctx.initialized && Configured(ctx) && ctx.maxMessage >= 38 && ctx.maxVariable >= 1
    ensures DecodeVerdict(p, ctx, [0, 1, 0] + NO_ID + [2, 1, 15, 0] + INFO_PAYLOAD, 1) == Decoded(OldResponse())
  {
    NoIdIsZeros();
    OldResponsePayload();
    Framed(OldResponse(), INFO_PAYLOAD);
    assert Validity(ctx, OldResponse()) == Ok;
    hide BodyWire;
    WireIsDecoded(p, ctx, OldResponse(), 1);
  }

  // ---------------------------------------------------------------------------
  // A fault report without records
  // ---------------------------------------------------------------------------

  const RESULT_PAYLOAD: seq<byte> := [55, 0, 0, 0, 0, 2, 0, 0, 0xEF, 0xBE, 0xAD, 0xDE]

  function FaultReport(id: TestId): Message {
    Message(1, id, 0, Captured(55, 2, 0, 0xDEAD_BEEF, []))
  }

  lemma FaultReportPayload(id: TestId)
    ensures BodyWire(FaultReport(id).body) == RESULT_PAYLOAD
  {
    assert U32Le(55) == [55, 0, 0, 0] && U32Le(0xDEAD_BEEF) == [0xEF, 0xBE, 0xAD, 0xDE];
    assert CapturedHeader(55, 0, 2, 0, 0xDEAD_BEEF) == RESULT_PAYLOAD;
  }

  /** An execution problem at tick 55 of any test, with detail 0xDEADBEEF and no capture. */
  lemma FaultReportIsRead(p: Platform, ctx: Context, id: TestId)
    requires p.Valid() && ctx.initialized && Configured(ctx) && ctx.maxMessage >= 35 && ctx.maxTicks > 55
    ensures DecodeVerdict(p, ctx, [0, 4, 1] + id + [34, 0, 12, 0] + RESULT_PAYLOAD, 0) == Decoded(FaultReport(id))
  {
    FaultReportPayload(id);
    Framed(FaultReport(id), RESULT_PAYLOAD);
    assert Validity(ctx, FaultReport(id)) == Ok;
    hide BodyWire;
    WireIsDecoded(p, ctx, FaultReport(id), 0);
  }

  // ---------------------------------------------------------------------------
  // An update with a full CAN frame
  // ---------------------------------------------------------------------------

  const CAN_DATA: Span := [0x23, 1, 8, 1, 2, 3, 4, 5, 6, 7, 8, 0]
  const UPDATE_PAYLOAD: seq<byte> := [4, 3, 2, 0, 1, 1, 0, 0, 19, 0, 12, 0]

  function FullFrame(id: TestId): Message {
    Message(1, id, 0, Update(0x0002_0304, 1, [Record(19, 0, CAN_DATA)]))
  }

  lemma FullFrameIsFrame()
    ensures CanFramesOk(CAN_DATA)
  {
    var frame := C.Frame(0x123, 8, [1, 2, 3, 4, 5, 6, 7, 8]);
    TwoDigits(0x123);
    assert C.FrameBytes(frame) == CAN_DATA;
    assert [frame][1..] == [] && C.Pack([frame]) == C.FrameBytes(frame);
    C.PackThenUnpack([frame]);
  }

  lemma FullFrameIsValid(ctx: Context)
    requires ctx.maxVariable >= 12
    ensures ListVerdict(ctx, Operations, [Record(19, 0, CAN_DATA)], {}) == Ok
  {
    FullFrameIsFrame();
    hide CanFramesOk;
    assert [Record(19, 0, CAN_DATA)][1..] == [];
  }

  lemma FullFrameRecord()
    ensures var r := Record(19, 0, CAN_DATA);
            RecordsWire([r]) == [19, 0, 12, 0] + CAN_DATA && Data([r]) == CAN_DATA
  {
    var r := Record(19, 0, CAN_DATA);
    assert U16Le(12) == [12, 0] && Pad4(12) == 0;
    assert RecordWire(r) == [19, 0, 12, 0] + CAN_DATA;
    assert [r][1..] == [];
  }

  lemma FullFramePayload(id: TestId)
    ensures BodyWire(FullFrame(id).body) == UPDATE_PAYLOAD + CAN_DATA
  {
    FullFrameRecord();
    hide RecordsWire;
    assert U32Le(0x0002_0304) == [4, 3, 2, 0];
    assert UpdateHeader(0x0002_0304, 1, 1) + [19, 0, 12, 0] == UPDATE_PAYLOAD;
  }

  /** One chunk of tick 0x00020304 of any test, sending a CAN frame with identifier 0x123 and eight data bytes. */
  lemma FullFrameIsRead(p: Platform, ctx: Context, id: TestId, capacity: nat)
    requires p.Valid() && ctx.initialized && Configured(ctx)
    requires ctx.maxMessage >= 47 && ctx.maxVariable >= 12 && ctx.maxTicks > 0x0002_0304
    requires PoolOffset(p, Operations, 1) + 12 <= capacity <= p.sizeMax
    ensures DecodeVerdict(p, ctx, [0, 4, 1] + id + [21, 0, 24, 0] + (UPDATE_PAYLOAD + CAN_DATA), capacity)
         == Decoded(FullFrame(id))
  {
    var m := FullFrame(id);
    FullFramePayload(id);
    FullFrameIsValid(ctx);
    FullFrameRecord();
    Framed(m, UPDATE_PAYLOAD + CAN_DATA);
    assert Validity(ctx, m) == Ok;
    hide BodyWire;
    WireIsDecoded(p, ctx, m, capacity);
  }
}

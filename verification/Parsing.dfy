/**
 Reading the wire form: what each bounded scanner accepts, stated as a value, and the scanners themselves.
 The order of the checks, and so the status of every refusal, is the library's.
 */
module Parsing {
  import opened Sequences
  import opened Wire
  import opened Records
  import opened RecordScan
  import opened StorageSize
  import opened Messages

  datatype Parsed = Parsed(body: Body) | Unparsed(status: Status) | Unmodelled

  function ParseUpdate(p: Platform, ctx: Context, payload: seq<byte>): Parsed
    requires p.Valid()
  {
    if |payload| < UPDATE_HEADER then Unparsed(MalformedMessage)
    else
      var tick, count, flags := ReadU32(payload, 0), payload[4] as int, payload[5];
      if ReadU16(payload, 6) != 0 then Unparsed(MalformedMessage)
      else if !UpdateFieldsOk(ctx, tick, flags, count) then Unparsed(ValidationFailed)
      else
        match ScanFrom(ctx, Operations, payload, UPDATE_HEADER, count, {})
        case Rejected(status) => Unparsed(status)
        case Accepted(records) =>
          if ListStorage(p, Operations, count, |Data(records)|).None? then Unparsed(InvalidLength)
          else Parsed(Update(tick, flags, records))
  }

  function ParseCaptured(p: Platform, ctx: Context, payload: seq<byte>): Parsed
    requires p.Valid()
  {
    if |payload| < RESULT_HEADER then Unparsed(MalformedMessage)
    else
      var tick, count, condition := ReadU32(payload, 0), payload[4] as int, payload[5] as int;
      var flags, detail := payload[6], ReadU32(payload, 8);
      if payload[7] != 0 then Unparsed(MalformedMessage)
      else if !CapturedFieldsOk(ctx, tick, condition, flags, detail) then Unparsed(ValidationFailed)
      else
        match ScanFrom(ctx, Captures, payload, RESULT_HEADER, count, {})
        case Rejected(status) => Unparsed(status)
        case Accepted(records) =>
          if count != 0 && ListStorage(p, Captures, count, |Data(records)|).None? then Unparsed(InvalidLength)
          else Parsed(Captured(tick, condition, flags, detail, records))
  }

  function ParseArbitrary(ctx: Context, payload: seq<byte>): Parsed {
    if |payload| < ARBITRARY_PREFIX then Unparsed(MalformedMessage)
    else
      var length := ReadU16(payload, 4);
      if |payload| != ARBITRARY_PREFIX + length then Unparsed(MalformedMessage)
      else if length > ctx.maxVariable then Unparsed(ValidationFailed)
      else Parsed(Arbitrary(ReadU32(payload, 0), payload[ARBITRARY_PREFIX..]))
  }

  function ParseError(ctx: Context, payload: seq<byte>): Parsed {
    if |payload| < ERROR_FIXED then Unparsed(MalformedMessage)
    else
      var length := payload[11] as int;
      if |payload| != ERROR_FIXED + length then Unparsed(MalformedMessage)
      else if length > ctx.maxVariable then Unparsed(ValidationFailed)
      else Parsed(Error(payload[0], payload[1], payload[2], ReadU32(payload, 3), ReadU32(payload, 7),
                        payload[ERROR_FIXED..]))
  }

  function ParseInfo(ctx: Context, payload: seq<byte>): Parsed {
    if |payload| < INFO_FIXED + 2 then Unparsed(MalformedMessage)
    else
      var diagnostic := payload[INFO_FIXED] as int;
      var middle := INFO_FIXED + 1 + diagnostic;
      if |payload| < middle then Unparsed(MalformedMessage)
      else if diagnostic > ctx.maxVariable then Unparsed(ValidationFailed)
      else if |payload| < middle + 1 then Unparsed(MalformedMessage)
      else
        var hash := payload[middle] as int;
        if |payload| < middle + 1 + hash then Unparsed(MalformedMessage)
        else if hash > ctx.maxVariable then Unparsed(ValidationFailed)
        else if |payload| != middle + 1 + hash then Unparsed(MalformedMessage)
        else Parsed(SystemInfo(ReadU16(payload, 0), ReadU16(payload, 2), ReadU16(payload, 4), ReadU16(payload, 6),
                               ReadU16(payload, 8), ReadU16(payload, 10),
                               payload[INFO_FIXED + 1..middle], payload[middle + 1..]))
  }

  /** The body of a message of the given type, as its scanner accepts it, before the typed validation. */
  function ParseBody(p: Platform, ctx: Context, messageType: int, payload: seq<byte>): (parsed: Parsed)
    requires p.Valid()
    ensures parsed.Parsed? ==> TypeOf(parsed.body) == messageType
  {
    if messageType == UPDATE_INSTRUCTION then ParseUpdate(p, ctx, payload)
    else if messageType == VARIABLE_TEST_RESULT then ParseCaptured(p, ctx, payload)
    else if messageType == ARBITRARY_DATA then ParseArbitrary(ctx, payload)
    else if messageType == ERROR_MESSAGE then ParseError(ctx, payload)
    else if messageType == SYSTEM_INFO_RESPONSE then ParseInfo(ctx, payload)
    else Unmodelled
  }

  /** What a scanner checks of a body, besides its layout. The span families leave the rest to the validator. */
  predicate Readable(ctx: Context, body: Body) {
    match body
    case Update(_, _, _) => BodyStatus(ctx, body) == Ok
    case Captured(_, _, _, _, _) => BodyStatus(ctx, body) == Ok
    case Arbitrary(_, _) => BodyStatus(ctx, body) == Ok
    case Error(category, _, _, _, _, diagnostic) => 0 <= category < 256 && |diagnostic| <= U8Limit(ctx)
    case SystemInfo(_, _, _, _, _, _, diagnostic, gitHash) =>
      |diagnostic| <= U8Limit(ctx) && |gitHash| <= U8Limit(ctx)
  }

  // ---------------------------------------------------------------------------
  // Fixed headers
  // ---------------------------------------------------------------------------

  lemma UpdateHeaderReads(payload: seq<byte>, tick: u32, count: byte, flags: byte)
    requires |payload| >= UPDATE_HEADER
    ensures payload[..UPDATE_HEADER] == UpdateHeader(tick, count, flags)
            <==> ReadU32(payload, 0) == tick && payload[4] == count && payload[5] == flags && ReadU16(payload, 6) == 0
  {
    var head := payload[..UPDATE_HEADER];
    U32RoundTrip(payload, 0, tick);
    U16RoundTrip(payload, 6, 0);
    Prefix(payload, UPDATE_HEADER, 0, 4);
    Prefix(payload, UPDATE_HEADER, 6, 8);
    assert head == head[0..4] + [head[4], head[5]] + head[6..8];
  }

  lemma CapturedHeaderReads(payload: seq<byte>, tick: u32, count: byte, condition: byte, flags: byte, detail: u32)
    requires |payload| >= RESULT_HEADER
    ensures payload[..RESULT_HEADER] == CapturedHeader(tick, count, condition, flags, detail)
            <==> ReadU32(payload, 0) == tick && payload[4] == count && payload[5] == condition
                 && payload[6] == flags && payload[7] == 0 && ReadU32(payload, 8) == detail
  {
    var head := payload[..RESULT_HEADER];
    U32RoundTrip(payload, 0, tick);
    U32RoundTrip(payload, 8, detail);
    Prefix(payload, RESULT_HEADER, 0, 4);
    Prefix(payload, RESULT_HEADER, 8, 12);
    assert head == head[0..4] + [head[4], head[5], head[6], head[7]] + head[8..12];
  }

  lemma ErrorHeaderReads(payload: seq<byte>, category: byte, recoverable: byte, hasTick: byte, tick: u32, detail: u32)
    requires |payload| >= 11
    ensures payload[..11] == ErrorHeader(category, recoverable, hasTick, tick, detail)
            <==> payload[0] == category && payload[1] == recoverable && payload[2] == hasTick
                 && ReadU32(payload, 3) == tick && ReadU32(payload, 7) == detail
  {
    var head := payload[..11];
    U32RoundTrip(payload, 3, tick);
    U32RoundTrip(payload, 7, detail);
    Prefix(payload, 11, 3, 7);
    Prefix(payload, 11, 7, 11);
    assert head == [head[0], head[1], head[2]] + head[3..7] + head[7..11];
  }

  lemma InfoHeaderReads(payload: seq<byte>, a: u16, b: u16, c: u16, d: u16, e: u16, f: u16)
    requires |payload| >= INFO_FIXED
    ensures payload[..INFO_FIXED] == InfoHeader(a, b, c, d, e, f)
            <==> ReadU16(payload, 0) == a && ReadU16(payload, 2) == b && ReadU16(payload, 4) == c
                 && ReadU16(payload, 6) == d && ReadU16(payload, 8) == e && ReadU16(payload, 10) == f
  {
    var head := payload[..INFO_FIXED];
    InfoFieldReads(payload, 0, a);
    InfoFieldReads(payload, 2, b);
    InfoFieldReads(payload, 4, c);
    InfoFieldReads(payload, 6, d);
    InfoFieldReads(payload, 8, e);
    InfoFieldReads(payload, 10, f);
    assert head == head[0..2] + head[2..4] + head[4..6] + head[6..8] + head[8..10] + head[10..12];
  }

  lemma InfoFieldReads(payload: seq<byte>, at: nat, v: u16)
    requires at + 2 <= INFO_FIXED <= |payload|
    ensures ReadU16(payload, at) == v <==> payload[..INFO_FIXED][at..at + 2] == U16Le(v)
  {
    U16RoundTrip(payload, at, v);
    Prefix(payload, INFO_FIXED, at, at + 2);
  }

  // ---------------------------------------------------------------------------
  // A scanner accepts exactly the wire form of a readable body
  // ---------------------------------------------------------------------------

  lemma ParseUpdateExact(p: Platform, ctx: Context, tick: u32, flags: byte, records: RecordList, payload: seq<byte>)
    requires p.Valid()
    ensures ParseUpdate(p, ctx, payload) == Parsed(Update(tick, flags, records))
            <==> payload == BodyWire(Update(tick, flags, records)) && Readable(ctx, Update(tick, flags, records))
                 && StorageNeeded(p, Operations, records) <= p.sizeMax
  {
    var count: byte := |records|;
    ListStorageIsExact(p, Operations, count, |Data(records)|);
    var body := Update(tick, flags, records);
    if |payload| >= UPDATE_HEADER {
      UpdateHeaderReads(payload, tick, count, flags);
      AcceptedExactlyWhenSerialised(ctx, Operations, payload, UPDATE_HEADER, count, records);
      assert payload == payload[..UPDATE_HEADER] + payload[UPDATE_HEADER..];
      SplitAt(payload, UpdateHeader(tick, count, flags), RecordsWire(records));
    }
  }

  lemma ParseCapturedExact(
      p: Platform, ctx: Context, tick: u32, condition: int, flags: byte, detail: u32, records: RecordList,
      payload: seq<byte>)
    requires p.Valid()
    ensures var body := Captured(tick, condition, flags, detail, records);
            ParseCaptured(p, ctx, payload) == Parsed(body)
            <==> payload == BodyWire(body) && Readable(ctx, body) && StorageNeeded(p, Captures, records) <= p.sizeMax
  {
    var count: byte := |records|;
    ListStorageIsExact(p, Captures, count, |Data(records)|);
    if |payload| >= RESULT_HEADER {
      CapturedHeaderReads(payload, tick, count, WireByte(condition), flags, detail);
      AcceptedExactlyWhenSerialised(ctx, Captures, payload, RESULT_HEADER, count, records);
      SplitAt(payload, CapturedHeader(tick, count, condition, flags, detail), RecordsWire(records));
    }
  }

  lemma ParseArbitraryExact(ctx: Context, dataId: u32, span: Span, payload: seq<byte>)
    ensures var body := Arbitrary(dataId, span);
            ParseArbitrary(ctx, payload) == Parsed(body) <==> payload == BodyWire(body) && Readable(ctx, body)
  {
    if |payload| >= ARBITRARY_PREFIX {
      U32RoundTrip(payload, 0, dataId);
      U16RoundTrip(payload, 4, |span|);
      Prefix(payload, ARBITRARY_PREFIX, 0, 4);
      Prefix(payload, ARBITRARY_PREFIX, 4, 6);
      var head := payload[..ARBITRARY_PREFIX];
      assert head == head[0..4] + head[4..6];
      SplitAt(payload, U32Le(dataId) + U16Le(|span|), span);
    }
  }

  lemma ParseErrorExact(ctx: Context, body: Body, payload: seq<byte>)
    requires body.Error?
    ensures ParseError(ctx, payload) == Parsed(body) <==> payload == BodyWire(body) && Readable(ctx, body)
  {
    if |payload| >= ERROR_FIXED {
      var header := ErrorHeader(body.category, body.recoverable, body.hasTick, body.tick, body.detail);
      ErrorHeaderReads(payload, WireByte(body.category), body.recoverable, body.hasTick, body.tick, body.detail);
      SplitAt(payload, header, SpanWire(body.diagnostic));
      SplitAt(payload[11..], [WireByte(|body.diagnostic|)], body.diagnostic);
      assert payload[11..][..1] == [payload[11]] && payload[11..][1..] == payload[12..];
    }
  }

  /** An encoded span is a length byte and the bytes behind it. */
  lemma SpanReads(payload: seq<byte>, at: nat, span: seq<byte>)
    requires at + 1 + |span| <= |payload|
    ensures payload[at..at + 1 + |span|] == SpanWire(span)
            <==> payload[at] == WireByte(|span|) && payload[at + 1..at + 1 + |span|] == span
  {
    var part := payload[at..at + 1 + |span|];
    SplitAt(part, [WireByte(|span|)], span);
    assert part[..1] == [payload[at]] && part[1..] == payload[at + 1..at + 1 + |span|];
  }

  /** A payload of three parts holds each part in its place. */
  lemma ThreePartsRead(payload: seq<byte>, header: seq<byte>, first: seq<byte>, second: seq<byte>)
    requires |payload| == |header| + |first| + |second|
    ensures var middle := |header| + |first|;
            payload == header + first + second
            <==> payload[..|header|] == header && payload[|header|..middle] == first
                 && payload[middle..middle + |second|] == second
  {
    var middle := |header| + |first|;
    Associate(header, first, second);
    SplitAt(payload, header, first + second);
    SplitAt(payload[|header|..], first, second);
    assert payload[|header|..][..|first|] == payload[|header|..middle];
    assert payload[|header|..][|first|..] == payload[middle..middle + |second|];
  }

  lemma ParseInfoExact(ctx: Context, body: Body, payload: seq<byte>)
    requires body.SystemInfo?
    ensures ParseInfo(ctx, payload) == Parsed(body) <==> payload == BodyWire(body) && Readable(ctx, body)
  {
    var header := InfoHeader(body.protocolMajor, body.protocolMinor, body.protocolPatch,
                             body.firmwareMajor, body.firmwareMinor, body.firmwarePatch);
    hide InfoHeader;
    var first, second := SpanWire(body.diagnostic), SpanWire(body.gitHash);
    var middle := INFO_FIXED + |first|;
    if |payload| == middle + |second| {
      InfoHeaderReads(payload, body.protocolMajor, body.protocolMinor, body.protocolPatch,
                      body.firmwareMajor, body.firmwareMinor, body.firmwarePatch);
      ThreePartsRead(payload, header, first, second);
      SpanReads(payload, INFO_FIXED, body.diagnostic);
      SpanReads(payload, middle, body.gitHash);
    }
  }

  /**
   For every modelled family: the scanner accepts a payload as this body exactly when the payload is the
   body's wire form, the body is readable, and its decode storage fits the size type.
   */
  lemma ParseBodyExact(p: Platform, ctx: Context, body: Body, payload: seq<byte>)
    requires p.Valid()
    ensures ParseBody(p, ctx, TypeOf(body), payload) == Parsed(body)
            <==> payload == BodyWire(body) && Readable(ctx, body) && BodyStorage(p, body) <= p.sizeMax
  {
    match body
    case Update(tick, flags, records) => ParseUpdateExact(p, ctx, tick, flags, records, payload);
    case Captured(tick, condition, flags, detail, records) =>
      ParseCapturedExact(p, ctx, tick, condition, flags, detail, records, payload);
    case Arbitrary(dataId, span) => ParseArbitraryExact(ctx, dataId, span, payload);
    case Error(_, _, _, _, _, _) => ParseErrorExact(ctx, body, payload);
    case SystemInfo(_, _, _, _, _, _, _, _) => ParseInfoExact(ctx, body, payload);
  }
}

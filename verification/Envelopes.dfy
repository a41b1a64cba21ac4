/**
 Whole messages on the wire: the 23-byte envelope, the exact-length rule, and the verdicts of the façade's
 readers. The main result says which byte strings are accepted, and as which message.
 */
module Envelopes {
  import opened Sequences
  import opened Wire
  import opened Records
  import opened RecordScan
  import opened Messages
  import opened Parsing

  datatype Envelope = Envelope(
    major: byte, minor: byte, hasTestId: byte, testId: TestId, messageType: byte, subtype: byte, length: u16)

  datatype Header = Header(envelope: Envelope) | BadHeader(status: Status)

  predicate VersionMatches(major: int, minor: int) {
    major == VERSION_MAJOR && minor == VERSION_MINOR
  }

  function ParseHeader(bytes: seq<byte>): Header {
    if |bytes| < HEADER_SIZE then BadHeader(TruncatedMessage)
    else
      var hasTestId, testId := bytes[2], bytes[3..19];
      if hasTestId > 1 then BadHeader(MalformedMessage)
      else if hasTestId == 0 && testId != Zeros(TEST_ID_SIZE) then BadHeader(InconsistentTestId)
      else
        var status := EnvelopeFields(bytes[19], bytes[20], hasTestId);
        if status != Ok then BadHeader(status)
        else if !IsDiscovery(bytes[19]) && !VersionMatches(bytes[0], bytes[1]) then BadHeader(VersionMismatch)
        else Header(Envelope(bytes[0], bytes[1], hasTestId, testId, bytes[19], bytes[20], ReadU16(bytes, 21)))
  }

  function EnvelopeWire(e: Envelope): (wire: seq<byte>)
    ensures |wire| == HEADER_SIZE
  {
    HeaderWire(e.major, e.minor, e.hasTestId, e.testId, e.messageType, e.subtype, e.length)
  }

  predicate EnvelopeOk(e: Envelope) {
    && EnvelopeFields(e.messageType, e.subtype, e.hasTestId) == Ok
    && (e.hasTestId == 0 ==> e.testId == Zeros(TEST_ID_SIZE))
    && (IsDiscovery(e.messageType) || VersionMatches(e.major, e.minor))
  }

  lemma HeaderReads(bytes: seq<byte>, e: Envelope)
    requires |bytes| >= HEADER_SIZE
    ensures bytes[..HEADER_SIZE] == EnvelopeWire(e)
            <==> bytes[0] == e.major && bytes[1] == e.minor && bytes[2] == e.hasTestId && bytes[3..19] == e.testId
                 && bytes[19] == e.messageType && bytes[20] == e.subtype && ReadU16(bytes, 21) == e.length
  {
    var head := bytes[..HEADER_SIZE];
    U16RoundTrip(bytes, 21, e.length);
    Prefix(bytes, HEADER_SIZE, 3, 19);
    Prefix(bytes, HEADER_SIZE, 21, 23);
    assert head == [head[0], head[1], head[2]] + head[3..19] + [head[19], head[20]] + head[21..23];
  }

  /** A header is accepted exactly when it is the wire form of a consistent envelope. */
  lemma HeaderExact(bytes: seq<byte>, e: Envelope)
    ensures ParseHeader(bytes) == Header(e)
            <==> |bytes| >= HEADER_SIZE && bytes[..HEADER_SIZE] == EnvelopeWire(e) && EnvelopeOk(e)
  {
    if |bytes| >= HEADER_SIZE {
      HeaderReads(bytes, e);
    }
  }

  // ---------------------------------------------------------------------------
  // The façade's readers
  // ---------------------------------------------------------------------------

  datatype Reading =
    Read(message: Message, envelope: Envelope) | Failed(status: Status) | OtherFamily(messageType: byte)

  /** Envelope, exact length and body scan; nothing about the configured limits or the typed validation yet. */
  function ReadMessage(p: Platform, ctx: Context, bytes: seq<byte>): Reading
    requires p.Valid()
  {
    match ParseHeader(bytes)
    case BadHeader(status) => Failed(status)
    case Header(e) =>
      match CheckedAdd(p, HEADER_SIZE, e.length)
      case None => Failed(InvalidLength)
      case Some(total) =>
        if total > |bytes| then Failed(TruncatedMessage)
        else if total != |bytes| then Failed(MalformedMessage)
        else
          match ParseBody(p, ctx, e.messageType, bytes[HEADER_SIZE..])
          case Unmodelled => OtherFamily(e.messageType)
          case Unparsed(status) => Failed(status)
          case Parsed(body) => Read(Message(e.hasTestId, e.testId, e.subtype, body), e)
  }

  /** A decoded discovery body must repeat the envelope's version. */
  predicate DiscoveryAgrees(e: Envelope, body: Body) {
    body.SystemInfo? ==> body.protocolMajor == e.major && body.protocolMinor == e.minor
  }

  /** The checks every reading entry point of the façade starts with. */
  function Admission(ctx: Context, bytes: seq<byte>): Status {
    if !ctx.initialized then Uninitialized
    else if |bytes| > ctx.maxMessage then InvalidLength
    else Ok
  }

  datatype Decoding = Decoded(message: Message) | Undecoded(status: Status) | ElsewhereDecoded(messageType: byte)

  /** `Decode_Message` with the given storage capacity. */
  function DecodeVerdict(p: Platform, ctx: Context, bytes: seq<byte>, capacity: nat): Decoding
    requires p.Valid()
  {
    if Admission(ctx, bytes) != Ok then Undecoded(Admission(ctx, bytes))
    else
      match ReadMessage(p, ctx, bytes)
      case Failed(status) => Undecoded(status)
      case OtherFamily(messageType) => ElsewhereDecoded(messageType)
      case Read(m, e) =>
        if BodyStorage(p, m.body) > capacity then Undecoded(BufferTooSmall)
        else if !DiscoveryAgrees(e, m.body) then Undecoded(MalformedMessage)
        else if Validity(ctx, m) != Ok then Undecoded(Validity(ctx, m))
        else Decoded(m)
  }

  datatype Sizing = Sized(storage: nat) | Unsized(status: Status) | ElsewhereSized(messageType: byte)

  /** `Decode_Storage_Size`: no storage, no typed validation. */
  function StorageVerdict(p: Platform, ctx: Context, bytes: seq<byte>): Sizing
    requires p.Valid()
  {
    if Admission(ctx, bytes) != Ok then Unsized(Admission(ctx, bytes))
    else
      match ReadMessage(p, ctx, bytes)
      case Failed(status) => Unsized(status)
      case OtherFamily(messageType) => ElsewhereSized(messageType)
      case Read(m, e) =>
        if !DiscoveryAgrees(e, m.body) then Unsized(MalformedMessage) else Sized(BodyStorage(p, m.body))
  }

  /** What `Validate_Encoded_Message` still checks of a body the storage query has accepted. */
  function EncodedBodyStatus(ctx: Context, m: Message): Status {
    match m.body
    case SystemInfo(_, _, _, _, _, _, _, _) => SystemInfoStatus(ctx, m.body)
    case Error(_, _, hasTick, _, _, _) =>
      if hasTick == 1 && m.hasTestId == 0 then InconsistentTestId else ErrorStatus(ctx, m.body)
    case _ => Ok
  }

  /** `Validate_Encoded_Message`. */
  function EncodedVerdict(p: Platform, ctx: Context, bytes: seq<byte>): Sizing
    requires p.Valid()
  {
    var sizing := StorageVerdict(p, ctx, bytes);
    if !sizing.Sized? then sizing
    else
      var status := EncodedBodyStatus(ctx, ReadMessage(p, ctx, bytes).message);
      if status != Ok then Unsized(status) else sizing
  }

  // ---------------------------------------------------------------------------
  // Which bytes are accepted
  // ---------------------------------------------------------------------------

  /** The envelope a writer gives a message. */
  function EnvelopeOf(m: Message): Envelope {
    Envelope(EnvelopeMajor(m.body), EnvelopeMinor(m.body), m.hasTestId, IdWire(m.hasTestId, m.testId), TypeOf(m.body),
             WireByte(m.subtype), |BodyWire(m.body)| % 0x1_0000)
  }

  lemma MessageSplits(m: Message, bytes: seq<byte>)
    ensures bytes == MessageWire(m)
            <==> |bytes| >= HEADER_SIZE && bytes[..HEADER_SIZE] == EnvelopeWire(EnvelopeOf(m))
                 && bytes[HEADER_SIZE..] == BodyWire(m.body)
  {
    if |bytes| >= HEADER_SIZE {
      SplitAt(bytes, EnvelopeWire(EnvelopeOf(m)), BodyWire(m.body));
    }
  }

  /** What a valid message owes to its scanner and its envelope. */
  lemma ValidIsReadable(ctx: Context, m: Message)
    requires Validity(ctx, m) == Ok
    ensures Readable(ctx, m.body) && DiscoveryAgrees(EnvelopeOf(m), m.body) && 0 <= m.subtype < 256
    ensures Canonical(m) ==> EnvelopeOk(EnvelopeOf(m))
  {
  }

  /** What a read message says about the bytes it came from. */
  lemma ReadIsWire(p: Platform, ctx: Context, bytes: seq<byte>)
    requires p.Valid() && ReadMessage(p, ctx, bytes).Read?
    ensures var m, e := ReadMessage(p, ctx, bytes).message, ReadMessage(p, ctx, bytes).envelope;
            && |bytes| == HEADER_SIZE + e.length
            && bytes[..HEADER_SIZE] == EnvelopeWire(e) && bytes[HEADER_SIZE..] == BodyWire(m.body)
            && EnvelopeOk(e) && m == Message(e.hasTestId, e.testId, e.subtype, m.body)
            && TypeOf(m.body) == e.messageType
            && Readable(ctx, m.body) && BodyStorage(p, m.body) <= p.sizeMax
  {
    var reading := ReadMessage(p, ctx, bytes);
    HeaderExact(bytes, reading.envelope);
    ParseBodyExact(p, ctx, reading.message.body, bytes[HEADER_SIZE..]);
  }

  lemma EnvelopeIsDetermined(e: Envelope, m: Message)
    requires EnvelopeOk(e) && DiscoveryAgrees(e, m.body)
    requires m.hasTestId == e.hasTestId && m.testId == e.testId && m.subtype == e.subtype
    requires TypeOf(m.body) == e.messageType && |BodyWire(m.body)| == e.length
    ensures e == EnvelopeOf(m) && Canonical(m)
  {
  }

  /** An accepted message came in as its own wire form. */
  lemma DecodedIsWire(p: Platform, ctx: Context, bytes: seq<byte>, capacity: nat)
    requires p.Valid() && DecodeVerdict(p, ctx, bytes, capacity).Decoded?
    ensures var m := DecodeVerdict(p, ctx, bytes, capacity).message;
            && bytes == MessageWire(m) && Canonical(m) && Validity(ctx, m) == Ok
            && BodyStorage(p, m.body) <= capacity && BodyStorage(p, m.body) <= p.sizeMax
  {
    var reading := ReadMessage(p, ctx, bytes);
    ReadIsWire(p, ctx, bytes);
    EnvelopeIsDetermined(reading.envelope, reading.message);
    MessageSplits(reading.message, bytes);
  }

  /** The wire form of a valid canonical message is read as that message, in the envelope a writer gives it. */
  lemma WireIsRead(p: Platform, ctx: Context, m: Message)
    requires p.Valid() && Configured(ctx)
    requires Canonical(m) && Validity(ctx, m) == Ok && |MessageWire(m)| <= ctx.maxMessage
    requires BodyStorage(p, m.body) <= p.sizeMax
    ensures ReadMessage(p, ctx, MessageWire(m)) == Read(m, EnvelopeOf(m))
  {
    assert ctx.initialized;
    hide ParseHeader;
    hide ParseBody;
    hide Readable;
    hide Validity;
    hide EnvelopeOk;
    hide BodyWire;
    hide EnvelopeWire;
    var bytes, e := MessageWire(m), EnvelopeOf(m);
    ValidIsReadable(ctx, m);
    MessageSplits(m, bytes);
    assert e.length == |BodyWire(m.body)|;
    HeaderExact(bytes, e);
    ParseBodyExact(p, ctx, m.body, bytes[HEADER_SIZE..]);
  }

  /** The wire form of a valid canonical message is accepted as that message. */
  lemma WireIsDecoded(p: Platform, ctx: Context, m: Message, capacity: nat)
    requires p.Valid() && Configured(ctx)
    requires Canonical(m) && Validity(ctx, m) == Ok && |MessageWire(m)| <= ctx.maxMessage
    requires BodyStorage(p, m.body) <= capacity && BodyStorage(p, m.body) <= p.sizeMax
    ensures DecodeVerdict(p, ctx, MessageWire(m), capacity) == Decoded(m)
  {
    WireIsRead(p, ctx, m);
    ValidIsReadable(ctx, m);
    hide ReadMessage;
    hide MessageWire;
    hide BodyStorage;
  }

  /**
   The accepted bytes are exactly the wire forms of valid messages that carry no Test-ID bytes unless they
   have a Test-ID, that fit the configured limit, and whose decoded form fits the storage given.
   */
  lemma AcceptedExactlyWhenWireForm(p: Platform, ctx: Context, bytes: seq<byte>, capacity: nat, m: Message)
    requires p.Valid() && Configured(ctx)
    ensures DecodeVerdict(p, ctx, bytes, capacity) == Decoded(m)
            <==> bytes == MessageWire(m) && Canonical(m) && Validity(ctx, m) == Ok && |bytes| <= ctx.maxMessage
                 && BodyStorage(p, m.body) <= capacity && BodyStorage(p, m.body) <= p.sizeMax
  {
    if DecodeVerdict(p, ctx, bytes, capacity) == Decoded(m) {
      DecodedIsWire(p, ctx, bytes, capacity);
    }
    if bytes == MessageWire(m) && Canonical(m) && Validity(ctx, m) == Ok && |bytes| <= ctx.maxMessage
       && BodyStorage(p, m.body) <= capacity && BodyStorage(p, m.body) <= p.sizeMax {
      WireIsDecoded(p, ctx, m, capacity);
    }
  }

  /** Two byte strings accepted as the same message are the same bytes: decoding loses nothing. */
  lemma DecodingIsInjective(p: Platform, ctx: Context, one: seq<byte>, two: seq<byte>, capacity: nat)
    requires p.Valid()
    requires DecodeVerdict(p, ctx, one, capacity).Decoded?
    requires DecodeVerdict(p, ctx, two, capacity) == DecodeVerdict(p, ctx, one, capacity)
    ensures one == two
  {
    DecodedIsWire(p, ctx, one, capacity);
    DecodedIsWire(p, ctx, two, capacity);
  }

  /** Two valid messages with the same wire form differ at most in the Test-ID bytes of an absent Test-ID. */
  lemma WireFormIsInjective(ctx: Context, one: Message, two: Message)
    requires Configured(ctx) && Validity(ctx, one) == Ok && Validity(ctx, two) == Ok
    requires MessageWire(one) == MessageWire(two) && |MessageWire(one)| <= ctx.maxMessage
    ensures OnTheWire(one) == OnTheWire(two)
  {
    var small := Platform(0xFFFF, 1, 1, 1);
    var capacity := BodyStorage(small, one.body) + BodyStorage(small, two.body);
    var p := small.(sizeMax := 0xFFFF + capacity);
    WireIsDecoded(p, ctx, OnTheWire(one), capacity);
    WireIsDecoded(p, ctx, OnTheWire(two), capacity);
  }

  // ---------------------------------------------------------------------------
  // Validation without storage
  // ---------------------------------------------------------------------------

  /** The early acceptance is right: what validation still checks after the scan is the whole typed validation. */
  lemma ScanLeavesNothingToValidate(p: Platform, ctx: Context, bytes: seq<byte>)
    requires p.Valid() && ctx.initialized && ReadMessage(p, ctx, bytes).Read?
    ensures var m := ReadMessage(p, ctx, bytes).message;
            EncodedBodyStatus(ctx, m) == Validity(ctx, m)
  {
    ReadIsWire(p, ctx, bytes);
  }

  /**
   Once the storage query has accepted a message, only an Error can still be refused: for every other
   modelled family the query alone decides validation, and the second reading of a discovery response
   never finds a fault.
   */
  lemma OnlyErrorsFailAfterTheScan(p: Platform, ctx: Context, bytes: seq<byte>)
    requires p.Valid() && StorageVerdict(p, ctx, bytes).Sized?
    ensures var m := ReadMessage(p, ctx, bytes).message;
            EncodedVerdict(p, ctx, bytes) == StorageVerdict(p, ctx, bytes) <==> m.body.Error? ==> Validity(ctx, m) == Ok
  {
    ReadIsWire(p, ctx, bytes);
    ScanLeavesNothingToValidate(p, ctx, bytes);
  }

  /**
   Validating encoded bytes and decoding them agree. Validation reports n exactly when decoding succeeds
   with n bytes of storage and uses n; with less storage an accepted input gives BUFFER_TOO_SMALL; and with
   enough storage for the body, refused inputs get the same status from both.
   */
  lemma ValidationEqualsDecoding(p: Platform, ctx: Context, bytes: seq<byte>, capacity: nat)
    requires p.Valid()
    ensures match EncodedVerdict(p, ctx, bytes)
            case Sized(n) =>
              if n <= capacity then
                && DecodeVerdict(p, ctx, bytes, capacity).Decoded?
                && BodyStorage(p, DecodeVerdict(p, ctx, bytes, capacity).message.body) == n
              else DecodeVerdict(p, ctx, bytes, capacity) == Undecoded(BufferTooSmall)
            case Unsized(status) =>
              DecodeVerdict(p, ctx, bytes, capacity)
              == Undecoded(if Admission(ctx, bytes) == Ok && ReadMessage(p, ctx, bytes).Read?
                              && BodyStorage(p, ReadMessage(p, ctx, bytes).message.body) > capacity
                           then BufferTooSmall else status)
            case ElsewhereSized(t) => DecodeVerdict(p, ctx, bytes, capacity) == ElsewhereDecoded(t)
  {
    if ctx.initialized && ReadMessage(p, ctx, bytes).Read? {
      ScanLeavesNothingToValidate(p, ctx, bytes);
    }
  }
}

/**
 Why the readers refuse what they refuse: an envelope that is cut short, inconsistent or of another version, a
 length that does not match, a payload whose layout is broken, and, for everything laid out correctly, the
 status the validator gives the message itself.
 */
module MessageRefusals {
  import opened Wire
  import opened Records
  import opened RecordScan
  import opened StorageSize
  import opened RecordRefusals
  import opened Messages
  import opened Parsing
  import opened Envelopes
  import R = EnvelopeRules

  // ---------------------------------------------------------------------------
  // Envelope and length
  // ---------------------------------------------------------------------------

  /** What is wrong with an envelope's first 23 bytes, in the order in which it is found. */
  lemma EnvelopeRefusal(bytes: seq<byte>)
    requires |bytes| >= 23
    ensures ParseHeader(bytes).Header? <==>
              && R.ClassOf(bytes[19]).Some?
              && var rule := R.Rule(R.ClassOf(bytes[19]).value);
                 && bytes[20] == rule.1 && R.Allows(rule.2, bytes[2])
                 && (bytes[2] == 0 ==> forall i :: 3 <= i < 19 ==> bytes[i] == 0)
                 && (rule.1 == 1 || (bytes[0] == 0 && bytes[1] == 4))
    ensures ParseHeader(bytes).BadHeader? ==>
              ParseHeader(bytes).status
              == if bytes[2] > 1 then MalformedMessage
                 else if bytes[2] == 0 && exists i :: 3 <= i < 19 && bytes[i] != 0 then InconsistentTestId
                 else if R.ClassOf(bytes[19]).None? then InvalidMessageType
                 else if bytes[20] != R.Rule(R.ClassOf(bytes[19]).value).1 then InvalidSubtype
                 else if !R.Allows(R.Rule(R.ClassOf(bytes[19]).value).2, bytes[2]) then InconsistentTestId
                 else VersionMismatch
  {
    R.EnvelopeFieldsExact(bytes[19], bytes[20], bytes[2]);
    var id := bytes[3..19];
    if forall i :: 3 <= i < 19 ==> bytes[i] == 0 {
      assert id == Zeros(16);
    } else {
      var i :| 3 <= i < 19 && bytes[i] != 0;
      assert id[i - 3] != 0;
    }
  }

  /** Every proper prefix of a message that is read is truncated. */
  lemma PrefixIsTruncated(p: Platform, ctx: Context, bytes: seq<byte>, n: nat, capacity: nat)
    requires p.Valid() && ReadMessage(p, ctx, bytes).Read? && n < |bytes|
    requires ctx.initialized && |bytes| <= ctx.maxMessage
    ensures DecodeVerdict(p, ctx, bytes[..n], capacity) == Undecoded(TruncatedMessage)
    ensures StorageVerdict(p, ctx, bytes[..n]) == Unsized(TruncatedMessage)
  {
    ReadIsWire(p, ctx, bytes);
    if n >= 23 {
      HeaderOfPrefix(bytes, n);
    }
  }

  lemma HeaderOfPrefix(bytes: seq<byte>, n: nat)
    requires 23 <= n <= |bytes|
    ensures ParseHeader(bytes[..n]) == ParseHeader(bytes)
  {
    assert bytes[..n][3..19] == bytes[3..19];
  }

  /** Every message that is read becomes malformed with any bytes behind it, or too long for the context. */
  lemma ExtensionIsMalformed(p: Platform, ctx: Context, bytes: seq<byte>, more: seq<byte>, capacity: nat)
    requires p.Valid() && ReadMessage(p, ctx, bytes).Read? && more != [] && ctx.initialized
    ensures var status := if |bytes + more| > ctx.maxMessage then InvalidLength else MalformedMessage;
            && DecodeVerdict(p, ctx, bytes + more, capacity) == Undecoded(status)
            && StorageVerdict(p, ctx, bytes + more) == Unsized(status)
  {
    ReadIsWire(p, ctx, bytes);
    assert (bytes + more)[..|bytes|] == bytes;
    HeaderOfPrefix(bytes + more, |bytes|);
  }

  /** A payload length that takes the size type beyond its largest value is invalid, however many bytes there are. */
  lemma LengthOverflowIsInvalid(p: Platform, ctx: Context, bytes: seq<byte>, capacity: nat)
    requires p.Valid() && ctx.initialized && |bytes| <= ctx.maxMessage
    requires ParseHeader(bytes).Header? && 23 + ParseHeader(bytes).envelope.length > p.sizeMax
    ensures DecodeVerdict(p, ctx, bytes, capacity) == Undecoded(InvalidLength)
    ensures StorageVerdict(p, ctx, bytes) == Unsized(InvalidLength)
  {
  }

  /** A context that was not published reads nothing, and a published one nothing above its limit. */
  lemma NotAdmitted(p: Platform, ctx: Context, bytes: seq<byte>, capacity: nat)
    requires p.Valid()
    ensures !ctx.initialized ==> DecodeVerdict(p, ctx, bytes, capacity) == Undecoded(Uninitialized)
    ensures ctx.initialized && |bytes| > ctx.maxMessage ==>
              DecodeVerdict(p, ctx, bytes, capacity) == Undecoded(InvalidLength)
    ensures !ctx.initialized ==> StorageVerdict(p, ctx, bytes) == Unsized(Uninitialized)
    ensures ctx.initialized && |bytes| > ctx.maxMessage ==> StorageVerdict(p, ctx, bytes) == Unsized(InvalidLength)
  {
  }

  /** A discovery response in an envelope of another version than it reports is malformed. */
  lemma ForeignEnvelopeIsMalformed(
      p: Platform, ctx: Context, m: Message, major: byte, minor: byte, bytes: seq<byte>, capacity: nat)
    requires p.Valid() && Configured(ctx) && m.body.SystemInfo? && Canonical(m) && Validity(ctx, m) == Ok
    requires |bytes| == |MessageWire(m)| <= ctx.maxMessage && bytes[0] == major && bytes[1] == minor
    requires bytes[2..] == MessageWire(m)[2..] && BodyStorage(p, m.body) <= capacity
    requires major != m.body.protocolMajor || minor != m.body.protocolMinor
    ensures StorageVerdict(p, ctx, bytes) == Unsized(MalformedMessage)
    ensures DecodeVerdict(p, ctx, bytes, capacity) == Undecoded(MalformedMessage)
  {
    ForeignEnvelopeIsRead(p, ctx, m, major, minor, bytes);
    hide ReadMessage;
    hide MessageWire;
  }

  lemma ForeignHeader(wire: seq<byte>, bytes: seq<byte>, e: Envelope, foreign: Envelope)
    requires |bytes| == |wire| >= 23 && bytes[2..] == wire[2..] && wire[..23] == EnvelopeWire(e)
    requires foreign == e.(major := bytes[0], minor := bytes[1]) && EnvelopeOk(foreign)
    ensures ParseHeader(bytes) == Header(foreign)
  {
    HeaderReads(wire, e);
    SameBehindVersion(bytes, wire);
    HeaderReads(bytes, foreign);
    HeaderExact(bytes, foreign);
  }

  lemma ForeignIsConsistent(p: Platform, ctx: Context, m: Message, major: byte, minor: byte)
    requires p.Valid() && Configured(ctx) && m.body.SystemInfo? && Canonical(m) && Validity(ctx, m) == Ok
    ensures EnvelopeOk(EnvelopeOf(m).(major := major, minor := minor))
    ensures Readable(ctx, m.body) && BodyStorage(p, m.body) <= p.sizeMax && |BodyWire(m.body)| <= 0xFFFF
    ensures WireByte(m.subtype) == m.subtype && IdWire(m.hasTestId, m.testId) == m.testId
  {
    hide InfoHeader;
  }

  lemma ReadFromParts(p: Platform, ctx: Context, bytes: seq<byte>, e: Envelope, body: Body)
    requires p.Valid() && ParseHeader(bytes) == Header(e) && |bytes| == 23 + e.length <= p.sizeMax
    requires ParseBody(p, ctx, e.messageType, bytes[23..]) == Parsed(body)
    ensures ReadMessage(p, ctx, bytes) == Read(Message(e.hasTestId, e.testId, e.subtype, body), e)
  {
    hide ParseHeader;
    hide ParseBody;
  }

  lemma ForeignEnvelopeIsRead(p: Platform, ctx: Context, m: Message, major: byte, minor: byte, bytes: seq<byte>)
    requires p.Valid() && Configured(ctx) && m.body.SystemInfo? && Canonical(m) && Validity(ctx, m) == Ok
    requires |bytes| == |MessageWire(m)| <= ctx.maxMessage && bytes[0] == major && bytes[1] == minor
    requires bytes[2..] == MessageWire(m)[2..]
    ensures ReadMessage(p, ctx, bytes) == Read(m, EnvelopeOf(m).(major := major, minor := minor))
  {
    var wire, e := MessageWire(m), EnvelopeOf(m);
    var foreign := e.(major := major, minor := minor);
    ForeignIsConsistent(p, ctx, m, major, minor);
    hide Validity;
    hide Readable;
    hide BodyStorage;
    hide EnvelopeOk;
    hide BodyWire;
    hide EnvelopeWire;
    hide ParseHeader;
    hide ParseBody;
    hide IdWire;
    hide ReadMessage;
    MessageSplits(m, wire);
    ForeignHeader(wire, bytes, e, foreign);
    SameBehindVersion(bytes, wire);
    hide MessageWire;
    ParseBodyExact(p, ctx, m.body, BodyWire(m.body));
    ReadFromParts(p, ctx, bytes, foreign, m.body);
  }

  lemma SameBehindVersion(bytes: seq<byte>, wire: seq<byte>)
    requires |bytes| == |wire| >= 23 && bytes[2..] == wire[2..]
    ensures forall i :: 2 <= i < |bytes| ==> bytes[i] == wire[i]
    ensures bytes[3..19] == wire[3..19] && bytes[23..] == wire[23..] && ReadU16(bytes, 21) == ReadU16(wire, 21)
  {
    assert forall i :: 2 <= i < |bytes| ==> bytes[i] == bytes[2..][i - 2] && wire[i] == wire[2..][i - 2];
  }

  // ---------------------------------------------------------------------------
  // Payloads
  // ---------------------------------------------------------------------------

  /** A payload without room for its fixed fields, with a reserved byte set, or of another length than it says. */
  predicate Misshapen(messageType: int, payload: seq<byte>) {
    if messageType == 21 then |payload| < 8 || payload[6] != 0 || payload[7] != 0
    else if messageType == 34 then |payload| < 12 || payload[7] != 0
    else if messageType == 49 then |payload| < 12 || |payload| != 12 + payload[11] as int
    else if messageType == 65 then |payload| < 6 || |payload| != 6 + ReadU16(payload, 4)
    else messageType == 2 && |payload| < 14
  }

  lemma MisshapenIsMalformed(p: Platform, ctx: Context, messageType: int, payload: seq<byte>)
    requires p.Valid() && Misshapen(messageType, payload)
    ensures ParseBody(p, ctx, messageType, payload) == Unparsed(MalformedMessage)
  {
    hide ScanFrom;
  }

  /** The two spans of a discovery response, as far as they are complete. */
  lemma ResponseRefusal(ctx: Context, payload: seq<byte>)
    requires |payload| >= 14
    ensures var diagnostic := payload[12] as int;
            var hash := if 13 + diagnostic < |payload| then payload[13 + diagnostic] as int else 0;
            && (ParseInfo(ctx, payload) == Unparsed(ValidationFailed)
                <==> || (13 + diagnostic <= |payload| && diagnostic > ctx.maxVariable)
                     || (13 + diagnostic < |payload| && 14 + diagnostic + hash <= |payload| && hash > ctx.maxVariable))
            && (ParseInfo(ctx, payload).Parsed? ==> |payload| == 14 + diagnostic + hash)
            && (ParseInfo(ctx, payload).Unparsed? ==>
                  ParseInfo(ctx, payload).status in {MalformedMessage, ValidationFailed})
  {
  }

  /** The fields of a body fit the wire, and no record is empty. */
  predicate Encodable(body: Body) {
    match body
    case Update(_, _, operations) => WellFormed(operations)
    case Captured(_, condition, _, _, captures) => 0 <= condition < 256 && WellFormed(captures)
    case Arbitrary(_, _) => true
    case Error(category, _, _, _, _, diagnostic) => 0 <= category < 256 && |diagnostic| < 256
    case SystemInfo(major, minor, _, _, _, _, diagnostic, gitHash) =>
      major < 256 && minor < 256 && |diagnostic| < 256 && |gitHash| < 256
  }

  /** A scanner refuses a correctly laid out record list with the validator's status. */
  lemma InvalidRecordsAreRefused(p: Platform, ctx: Context, body: Body)
    requires p.Valid() && (body.Update? || body.Captured?) && Encodable(body) && BodyStatus(ctx, body) != Ok
    ensures ParseBody(p, ctx, TypeOf(body), BodyWire(body)) == Unparsed(BodyStatus(ctx, body))
  {
    var payload := BodyWire(body);
    hide ScanFrom;
    hide ListVerdict;
    hide RecordsWire;
    if body.Update? {
      var header := UpdateHeader(body.tick, |body.operations|, body.flags);
      assert payload[..8] == header && payload[8..|payload|] == RecordsWire(body.operations);
      UpdateHeaderReads(payload, body.tick, |body.operations|, body.flags);
      ScanOfWire(ctx, Operations, payload, 8, |payload|, body.operations, 0, {});
    } else {
      var header := CapturedHeader(body.tick, |body.captures|, body.condition, body.flags, body.problemDetail);
      assert payload[..12] == header && payload[12..|payload|] == RecordsWire(body.captures);
      CapturedHeaderReads(payload, body.tick, |body.captures|, body.condition, body.flags, body.problemDetail);
      ScanOfWire(ctx, Captures, payload, 12, |payload|, body.captures, 0, {});
    }
  }

  lemma LongDataIsRefused(ctx: Context, body: Body)
    requires body.Arbitrary? && |body.payload| > ctx.maxVariable
    ensures ParseArbitrary(ctx, BodyWire(body)) == Unparsed(ValidationFailed)
  {
    var payload := BodyWire(body);
    assert payload[4..6] == U16Le(|body.payload|);
    U16RoundTrip(payload, 4, |body.payload|);
  }

  lemma LongDiagnosticIsRefused(ctx: Context, body: Body)
    requires body.Error? && Encodable(body) && |body.diagnostic| > ctx.maxVariable
    ensures ParseError(ctx, BodyWire(body)) == Unparsed(ValidationFailed)
  {
  }

  lemma LongSpansAreRefused(ctx: Context, body: Body)
    requires body.SystemInfo? && Encodable(body)
    requires |body.diagnostic| > ctx.maxVariable || |body.gitHash| > ctx.maxVariable
    ensures ParseInfo(ctx, BodyWire(body)) == Unparsed(ValidationFailed)
  {
    var payload, size := BodyWire(body), |body.diagnostic|;
    hide InfoHeader;
    assert payload[12] == size;
    assert payload[13 + size] == |body.gitHash|;
  }

  /** What the scanner makes of the wire form of any body, valid or not. */
  lemma ScannedBody(p: Platform, ctx: Context, body: Body)
    requires p.Valid() && Encodable(body) && BodyStorage(p, body) <= p.sizeMax
    ensures ParseBody(p, ctx, TypeOf(body), BodyWire(body))
         == if Readable(ctx, body) then Parsed(body)
            else Unparsed(if body.Update? || body.Captured? then BodyStatus(ctx, body) else ValidationFailed)
  {
    ParseBodyExact(p, ctx, body, BodyWire(body));
    hide BodyWire;
    if !Readable(ctx, body) {
      match body
      case Update(_, _, _) => InvalidRecordsAreRefused(p, ctx, body);
      case Captured(_, _, _, _, _) => InvalidRecordsAreRefused(p, ctx, body);
      case Arbitrary(_, _) => LongDataIsRefused(ctx, body);
      case Error(_, _, _, _, _, _) => LongDiagnosticIsRefused(ctx, body);
      case SystemInfo(_, _, _, _, _, _, _, _) => LongSpansAreRefused(ctx, body);
    }
  }

  /** Records whose decode storage would not fit the size type are of invalid length, valid as they are. */
  lemma StorageOverflowIsInvalidLength(p: Platform, ctx: Context, body: Body)
    requires p.Valid() && BodyStatus(ctx, body) == Ok && (body.Update? || body.Captured?)
    requires BodyStorage(p, body) > p.sizeMax
    ensures ParseBody(p, ctx, TypeOf(body), BodyWire(body)) == Unparsed(InvalidLength)
  {
    var larger := p.(sizeMax := BodyStorage(p, body));
    ParseBodyExact(larger, ctx, body, BodyWire(body));
    var kind := if body.Update? then Operations else Captures;
    var records := if body.Update? then body.operations else body.captures;
    ListStorageIsExact(p, kind, |records|, |Data(records)|);
    ListStorageIsExact(larger, kind, |records|, |Data(records)|);
    hide BodyWire;
    hide ScanFrom;
    hide ListVerdict;
  }

  /** The status of a message given as its wire form: the validator's, but an Error's span is measured first. */
  function StatusOfWire(ctx: Context, m: Message): Status {
    if m.body.Error? && |m.body.diagnostic| > U8Limit(ctx) then ValidationFailed else Validity(ctx, m)
  }

  /** The wire form of such a message gets as far as its scanner, with the envelope a writer gives it. */
  lemma ReadOfWire(p: Platform, ctx: Context, m: Message)
    requires p.Valid() && Configured(ctx) && ctx.initialized && Canonical(m) && Encodable(m.body)
    requires EnvelopeFields(TypeOf(m.body), m.subtype, m.hasTestId) == Ok
    requires |MessageWire(m)| <= ctx.maxMessage
    ensures ReadMessage(p, ctx, MessageWire(m))
         == match ParseBody(p, ctx, TypeOf(m.body), BodyWire(m.body))
            case Unmodelled => OtherFamily(TypeOf(m.body))
            case Unparsed(status) => Failed(status)
            case Parsed(body) => Read(Message(m.hasTestId, m.testId, m.subtype, body), EnvelopeOf(m))
  {
    MessageSplits(m, MessageWire(m));
    HeaderExact(MessageWire(m), EnvelopeOf(m));
    hide BodyWire;
    hide ParseBody;
    hide ParseHeader;
    hide HeaderWire;
  }

  /**
   The bytes of any message whose envelope is consistent and whose fields fit the wire are judged as the typed
   message is: accepted if it is valid, and refused with its status if it is not.
   */
  lemma WireIsJudgedAsMessage(p: Platform, ctx: Context, m: Message)
    requires p.Valid() && Configured(ctx) && ctx.initialized && Canonical(m) && Encodable(m.body)
    requires EnvelopeFields(TypeOf(m.body), m.subtype, m.hasTestId) == Ok
    requires |MessageWire(m)| <= ctx.maxMessage && BodyStorage(p, m.body) <= p.sizeMax
    ensures EncodedVerdict(p, ctx, MessageWire(m))
         == if Validity(ctx, m) == Ok then Sized(BodyStorage(p, m.body)) else Unsized(StatusOfWire(ctx, m))
  {
    ReadOfWire(p, ctx, m);
    ScannedBody(p, ctx, m.body);
    hide ReadMessage;
    hide MessageWire;
    hide ParseBody;
    hide ListVerdict;
  }
}

/**
 `ApplicationCodec.encode` and `ApplicationCodec.decode` of the Python binding, on top of the codec, and
 their round trip. Every check the binding adds is proved redundant, except the one that its own
 allocations are aligned as the library needs.
 */
module PythonCodec {
  import opened Wire
  import opened Records
  import opened RecordScan
  import opened StorageSize
  import opened Messages
  import opened Envelopes
  import opened Encoding
  import opened Scanners
  import opened DecodeStorage
  import opened Application
  import opened PythonBinding
  import opened PeripheralValues
  import T = TypedMessages
  import L = CodecLaws

  // ---------------------------------------------------------------------------
  // Which statuses the codec can answer with
  // ---------------------------------------------------------------------------

  /** Statuses that are neither a caller's misuse nor the codec's own fault. */
  predicate Ordinary(status: Status) {
    status !in {InternalError, InvalidArgument, Uninitialized, BufferTooSmall}
  }

  lemma {:induction false} ListVerdictIsOrdinary(ctx: Context, kind: Kind, records: seq<Record>, pairs: set<Pair>)
    ensures Ordinary(ListVerdict(ctx, kind, records, pairs))
    decreases |records|
  {
    if records == [] {
    } else {
      ListVerdictIsOrdinary(ctx, kind, records[1..], pairs + {(records[0].peripheral, records[0].channel as int)});
    }
  }

  lemma ScanOneIsOrdinary(ctx: Context, kind: Kind, payload: seq<byte>, offset: nat, pairs: set<Pair>)
    requires offset <= |payload|
    ensures var one := ScanOne(ctx, kind, payload, offset, pairs); one.Refused? ==> Ordinary(one.status)
  {
  }

  lemma {:induction false} ScanIsOrdinary(
      ctx: Context, kind: Kind, payload: seq<byte>, offset: nat, count: nat, pairs: set<Pair>)
    requires offset <= |payload|
    ensures ScanFrom(ctx, kind, payload, offset, count, pairs).Rejected? ==>
              Ordinary(ScanFrom(ctx, kind, payload, offset, count, pairs).status)
    decreases count
  {
    if count == 0 {
    } else {
      ScanOneIsOrdinary(ctx, kind, payload, offset, pairs);
      hide ScanOne;
      var one := ScanOne(ctx, kind, payload, offset, pairs);
      if one.Scanned? {
        ScanIsOrdinary(ctx, kind, payload, one.next, count - 1, pairs + {PairOf(one.record)});
      }
    }
  }

  /** No input makes a published context's scanners or validators report an internal error. */
  lemma ReadingIsOrdinary(p: Platform, ctx: Context, bytes: seq<byte>)
    requires p.Valid()
    ensures ReadMessage(p, ctx, bytes).Failed? ==> Ordinary(ReadMessage(p, ctx, bytes).status)
  {
    hide ScanFrom;
    if |bytes| >= HEADER_SIZE {
      var payload := bytes[HEADER_SIZE..];
      if |payload| >= UPDATE_HEADER {
        ScanIsOrdinary(ctx, Operations, payload, UPDATE_HEADER, payload[4] as int, {});
      }
      if |payload| >= RESULT_HEADER {
        ScanIsOrdinary(ctx, Captures, payload, RESULT_HEADER, payload[4] as int, {});
      }
    }
  }

  lemma ValidityIsOrdinary(ctx: Context, m: Message)
    requires ctx.initialized
    ensures Ordinary(Validity(ctx, m))
  {
    match m.body
    case Update(_, _, operations) => ListVerdictIsOrdinary(ctx, Operations, operations, {});
    case Captured(_, _, _, _, captures) => ListVerdictIsOrdinary(ctx, Captures, captures, {});
    case _ =>
  }

  /** What the second-pass decoder answers when it is given the storage the query asked for. */
  lemma DecodingIsOrdinary(p: Platform, ctx: Context, bytes: seq<byte>, capacity: nat)
    requires p.Valid() && ctx.initialized && StorageVerdict(p, ctx, bytes) == Sized(capacity)
    ensures var decoding := DecodeVerdict(p, ctx, bytes, capacity);
            match decoding
            case Undecoded(status) => Ordinary(status)
            case Decoded(m) => BodyStorage(p, m.body) == capacity
            case ElsewhereDecoded(_) => false
  {
    ValidityIsOrdinary(ctx, ReadMessage(p, ctx, bytes).message);
  }

  // ---------------------------------------------------------------------------
  // Reading a native message
  // ---------------------------------------------------------------------------

  lemma {:induction false} AcceptedRecordsAreReadable(ctx: Context, kind: Kind, records: seq<Record>, pairs: set<Pair>)
    requires ListVerdict(ctx, kind, records, pairs) == Ok
    ensures AllReadable(records)
    decreases |records|
  {
    if records == [] {
    } else {
      var rest := records[1..];
      AcceptedRecordsAreReadable(ctx, kind, rest, pairs + {(records[0].peripheral, records[0].channel as int)});
      forall i | 0 < i < |records|
        ensures records[i].data != [] && KnownPeripheral(records[i].peripheral)
      {
        assert records[i] == rest[i - 1];
      }
    }
  }

  predicate KnownCondition(condition: int) {
    condition in {0, 1, 2, 255}
  }

  predicate KnownCategory(category: int) {
    category in {0, 1, 2, 3, 4, 5, 6, 255}
  }

  /** The binding knows every number that has a meaning, and the two sentinels; and no other. */
  lemma KnownNumbers(number: int)
    ensures KnownPeripheral(number)
            <==> number in {0, 18, 255} || exists kind, v :: Carries(kind, number, 0, v)
    ensures KnownCategory(number) <==> number in {0, 255} || exists c :: T.CategoryNumber(c) == number
    ensures KnownCondition(number) <==> number == 255 || exists c :: T.ConditionNumber(c) == number
  {
    if KnownPeripheral(number) && number !in {0, 18, 255} {
      var kind := if number in {1, 3, 5} then Captures else Operations;
      var v := if number <= 2 then Pins(0) else if number <= 4 then Microvolts(0) else if number <= 6 then Pulse(0, 0)
               else if number == 16 then Stream([]) else if number == 17 then Packets([]) else Frames([]);
      assert Carries(kind, number, 0, v);
    }
    if KnownCategory(number) && number !in {0, 255} {
      assert T.CategoryNumber(T.CategoryOf(number)) == number;
    }
    if KnownCondition(number) && number != 255 {
      assert T.ConditionNumber(T.ConditionOf(number)) == number;
    }
  }

  /** The native message is the decoder's answer for `m`, in storage of exactly the right size. */
  ghost predicate Answered(p: Platform, ctx: Context, m: Message, native: NativeMessage, cells: seq<Cell>)
    requires p.Valid()
  {
    && Validity(ctx, m) == Ok && Canonical(m)
    && native == NativeMessageOf(m) && Stored(p, m.body, cells) && |cells| == BodyStorage(p, m.body)
  }

  /** What the reader keeps of a native body: everything but the tick of an Error that says it has none. */
  function Kept(body: Body): Body {
    if body.Error? && body.hasTick != 1 then body.(tick := 0) else body
  }

  /** The record reader of one family, with what it makes of the list. */
  method ReadRecords(
      p: Platform, kind: Kind, pointer: Option<nat>, count: byte, cells: seq<Cell>, ghost wanted: seq<Record>)
    returns (records: Option<RecordList>)
    requires p.Valid()
    ensures LaidOut(p, kind, pointer, count as int, cells, wanted) ==> records == Some(wanted)
    ensures records.Some? ==> RecordsThrough(p, kind, cells, pointer, count) == records
  {
    var list := ReadAlignedRecords(p, kind, pointer, count as int, cells, wanted);
    if list.None? {
      return None;
    }
    if list.value != [] {
      StoredListReadsBack(p, kind, list.value, cells);
    }
    return Some(list.value);
  }

  /**
   `_read_message`: envelope checks, then the family's reader. It accepts every answer of the decoder, and
   whatever it accepts it reads through the native pointers. `m` is any candidate message.
   */
  method ReadNative(
      p: Platform, ghost ctx: Context, native: NativeMessage, cells: seq<Cell>, ghost m: Message)
    returns (message: Option<Message>)
    requires p.Valid()
    ensures Answered(p, ctx, m, native, cells) ==> message == Some(m)
    ensures message.Some? ==>
              && View(p, cells, native.body).Some? && message.value.body == Kept(View(p, cells, native.body).value)
              && message.value.hasTestId == native.hasTestId <= 1 && Canonical(message.value)
  {
    var testId: TestId := if native.hasTestId == 1 then native.testId else Zeros(TEST_ID_SIZE);
    var discovery := native.body.NativeInfo?;
    if native.hasTestId > 1 || native.subtype != (if discovery then SUBTYPE_BASIC else SUBTYPE_NONE) {
      return None;
    }
    ghost var answered := Answered(p, ctx, m, native, cells);
    var body;
    match native.body {
      case NativeUpdate(tick, flags, count, operations) =>
        if native.hasTestId != 1 || count == 0 {
          return None;
        }
        ghost var wanted := if answered then m.body.operations else [];
        if answered {
          AcceptedRecordsAreReadable(ctx, Operations, wanted, {});
        }
        var records := ReadRecords(p, Operations, operations, count, cells, wanted);
        if records.None? {
          return None;
        }
        body := Update(tick, flags, records.value);
      case NativeCaptured(tick, condition, flags, detail, count, pointer) =>
        ghost var wanted := if answered then m.body.captures else [];
        if answered {
          AcceptedRecordsAreReadable(ctx, Captures, wanted, {});
        }
        if native.hasTestId != 1 || !KnownCondition(condition) {
          return None;
        }
        var records := ReadRecords(p, Captures, pointer, count, cells, wanted);
        if records.None? {
          return None;
        }
        body := Captured(tick, condition, flags, detail, records.value);
      case NativeArbitrary(dataId, payload) =>
        var bytes := CopyOnlySpan(payload, cells, if answered then m.body.payload else []);
        if bytes.None? {
          return None;
        }
        body := Arbitrary(dataId, bytes.value);
      case NativeError(category, recoverable, hasTick, tick, detail, diagnostic) =>
        var bytes := CopyOnlySpan(diagnostic, cells, if answered then m.body.diagnostic else []);
        if bytes.None? || !KnownCategory(category) || recoverable > 1 || hasTick > 1 {
          return None;
        }
        body := Error(category, recoverable, hasTick, if hasTick == 1 then tick else 0, detail, bytes.value);
      case NativeInfo(a, b, c, d, e, f, diagnostic, gitHash) =>
        if native.hasTestId != 0 {
          return None;
        }
        var spans := CopyResponseSpans(
          diagnostic, gitHash, cells, if answered then m.body.diagnostic else [],
          if answered then m.body.gitHash else []);
        if spans.None? {
          return None;
        }
        body := SystemInfo(a, b, c, d, e, f, spans.value.0, spans.value.1);
    }
    return Some(Message(native.hasTestId, testId, native.subtype, body));
  }

  // ---------------------------------------------------------------------------
  // Decoding
  // ---------------------------------------------------------------------------

  /** The binding's own upper bound on the storage query: the input, and room for the descriptors. */
  function StorageLimit(p: Platform, bytes: seq<byte>): nat
    requires p.Valid()
  {
    if |bytes| >= 31 && (bytes[19] == UPDATE_INSTRUCTION || bytes[19] == VARIABLE_TEST_RESULT) then
      var size := if bytes[19] == UPDATE_INSTRUCTION then p.operationSize else p.recordSize;
      |bytes| + RoundUp(bytes[27] as int * size, p.alignment)
    else |bytes|
  }

  /** The bound never refuses a storage size the codec reports. */
  lemma StorageLimitHolds(p: Platform, ctx: Context, bytes: seq<byte>)
    requires p.Valid() && StorageVerdict(p, ctx, bytes).Sized?
    ensures StorageVerdict(p, ctx, bytes).storage <= StorageLimit(p, bytes)
  {
    var m := ReadMessage(p, ctx, bytes).message;
    var payload := bytes[HEADER_SIZE..];
    ReadIsWire(p, ctx, bytes);
    assert bytes[19] == TypeOf(m.body);
    assert |payload| >= 5 ==> payload[4] == bytes[27];
    match m.body
    case Update(_, _, operations) => DataIsNoLongerThanWire(operations);
    case Captured(_, _, _, _, captures) => DataIsNoLongerThanWire(captures);
    case _ =>
  }

  /** What `decode` answers, in the codec's terms: the storage query's refusal, or the decoder's. */
  function DecodeAnswer(p: Platform, ctx: Context, bytes: seq<byte>): Answer<Message>
    requires p.Valid()
  {
    match StorageVerdict(p, ctx, bytes)
    case Unsized(status) => Raised(status)
    case ElsewhereSized(messageType) => OutsideModel(messageType)
    case Sized(n) =>
      match DecodeVerdict(p, ctx, bytes, n)
      case Undecoded(status) => Raised(status)
      case ElsewhereDecoded(messageType) => OutsideModel(messageType)
      case Decoded(m) => Returned(m)
  }

  function Forward<T>(checked: Answer<()>): Answer<T> {
    match checked
    case Returned(_) => BindingError
    case Raised(status) => Raised(status)
    case BindingError => BindingError
    case InternalFailure => InternalFailure
    case OutsideModel(t) => OutsideModel(t)
  }

  /**
   `decode`: query, check, allocate, decode, check again, read. `bindingAlignment` is the alignment of what
   the binding allocates. If that is no multiple of the library's storage alignment, every message the
   query accepts is refused; otherwise none of the binding's own checks fails.
   */
  method Decode(p: Platform, bindingAlignment: nat, ctx: Context, bytes: seq<byte>) returns (answer: Answer<Message>)
    requires p.Valid() && Configured(ctx) && ctx.initialized
    ensures answer == if StorageVerdict(p, ctx, bytes).Sized? && bindingAlignment % p.alignment != 0 then BindingError
                      else DecodeAnswer(p, ctx, bytes)
  {
    ReadingIsOrdinary(p, ctx, bytes);
    var sizing := DecodeStorageSize(p, ctx, bytes);
    if sizing.ElsewhereSized? {
      return OutsideModel(sizing.messageType);
    }
    if sizing.Unsized? {
      return Forward(CheckStatus(sizing.status, false));
    }
    var capacity := sizing.storage;
    StorageLimitHolds(p, ctx, bytes);
    if capacity > StorageLimit(p, bytes) {
      assert false;
    }
    if bindingAlignment % p.alignment != 0 {
      return BindingError;
    }
    DecodingIsOrdinary(p, ctx, bytes, capacity);
    var storage := new Cell[capacity](_ => Raw(0));
    var outcome := DecodeMessage(p, ctx, bytes, storage);
    if outcome.Elsewhere? {
      assert false;
    } else if outcome.Rejection? {
      return Forward(CheckStatus(outcome.status, true));
    } else {
      if outcome.used != capacity {
        assert false;
      }
      ghost var m := DecodeVerdict(p, ctx, bytes, capacity).message;
      DecodedIsWire(p, ctx, bytes, capacity);
      var message := ReadNative(p, ctx, outcome.message, storage[..], m);
      return Returned(message.value);
    }
  }

  // ---------------------------------------------------------------------------
  // Encoding
  // ---------------------------------------------------------------------------

  /** What `_build_message` makes of a Python value: the type's own subtype and Test-ID presence, and no stray bytes. */
  predicate Built(m: Message) {
    && CommonEnvelopeBuilt(m) && Canonical(m)
  }

  predicate CommonEnvelopeBuilt(m: Message) {
    if m.body.SystemInfo? then m.hasTestId == 0 && m.subtype == SUBTYPE_BASIC
    else if m.body.Update? || m.body.Captured? then m.hasTestId == 1 && m.subtype == SUBTYPE_NONE
    else m.hasTestId <= 1 && m.subtype == SUBTYPE_NONE
  }

  /** The codec's envelope checks accept what the binding builds, but for an Error with a tick and no Test-ID. */
  lemma BuiltEnvelopeIsAccepted(m: Message)
    ensures CommonFields(m) == Ok
            <==> CommonEnvelopeBuilt(m) && !(m.body.Error? && m.body.hasTick == 1 && m.hasTestId == 0)
  {
  }

  function EncodeAnswer(p: Platform, ctx: Context, m: Message): Answer<seq<byte>>
    requires Configured(ctx)
  {
    match SizeVerdict(p, ctx, m)
    case NoSize(status) => Raised(status)
    case Size(n) =>
      var status := EncodeVerdict(p, ctx, m, n);
      if status == Ok then Returned(MessageWire(m)) else Raised(status)
  }

  /** `encode`: query the size, allocate exactly that, encode, and check the two sizes agree. */
  method Encode(p: Platform, ctx: Context, m: Message) returns (answer: Answer<seq<byte>>)
    requires p.Valid() && Configured(ctx) && ctx.initialized && Built(m)
    ensures answer == EncodeAnswer(p, ctx, m)
  {
    ValidityIsOrdinary(ctx, m);
    var size := EncodedSize(p, ctx, m);
    if size.NoSize? {
      return Forward(CheckStatus(size.status, false));
    }
    var capacity := size.bytes;
    if !(0 < capacity <= ctx.maxMessage) {
      assert false;
    }
    var output := new byte[capacity](_ => 0);
    var status, written := EncodeMessage(p, ctx, m, output);
    if status != Ok {
      return Forward(CheckStatus(status, true));
    }
    if written != capacity {
      assert false;
    }
    assert output[..] == output[0..0 + |MessageWire(m)|];
    return Returned(output[..]);
  }

  /** Through the Python binding, decoding what was encoded gives the message back, for every message. */
  lemma EncodedDecodesBack(p: Platform, ctx: Context, m: Message)
    requires p.Valid() && Configured(ctx) && Built(m)
    requires BodyStorage(p, m.body) <= p.sizeMax && EncodeAnswer(p, ctx, m).Returned?
    ensures DecodeAnswer(p, ctx, EncodeAnswer(p, ctx, m).value) == Returned(m)
  {
    var n := BodyStorage(p, m.body);
    L.EncodeThenDecode(p, ctx, m, |MessageWire(m)|, n);
    SizedAsDecoded(p, ctx, MessageWire(m), n);
  }

  /** The storage query reports what the decoder uses. */
  lemma SizedAsDecoded(p: Platform, ctx: Context, bytes: seq<byte>, capacity: nat)
    requires p.Valid() && DecodeVerdict(p, ctx, bytes, capacity).Decoded?
    ensures StorageVerdict(p, ctx, bytes) == Sized(BodyStorage(p, DecodeVerdict(p, ctx, bytes, capacity).message.body))
  {
  }

  /** And encoding what was decoded gives the bytes back, unless the discovery version is another one. */
  lemma DecodedEncodesBack(p: Platform, ctx: Context, bytes: seq<byte>)
    requires p.Valid() && Configured(ctx) && DecodeAnswer(p, ctx, bytes).Returned?
    ensures EncodeAnswer(p, ctx, DecodeAnswer(p, ctx, bytes).value) == Returned(bytes)
            <==> ExactVersion(DecodeAnswer(p, ctx, bytes).value.body)
  {
    var n := StorageVerdict(p, ctx, bytes).storage;
    var m := DecodeAnswer(p, ctx, bytes).value;
    L.DecodeThenEncode(p, ctx, bytes, n);
    if ExactVersion(m.body) {
      L.SizeIsExact(p, ctx, m, |bytes|);
    }
  }
}

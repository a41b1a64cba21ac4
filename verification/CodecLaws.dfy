/**
 The laws of the codec: round trip, canonical wire form, exact sizes and the layout of decoded storage.
 Where the code falls short of a law, the exact condition under which it holds.
 */
module CodecLaws {
  import opened Wire
  import opened Records
  import opened RecordScan
  import opened StorageSize
  import opened Messages
  import opened Envelopes
  import opened Encoding
  import opened DecodeStorage
  import opened Application
  import B = RecordBound

  // ---------------------------------------------------------------------------
  // Round trip and canonical form
  // ---------------------------------------------------------------------------

  /**
   Round trip: whatever encodes, into any buffer, decodes in the same context to the message as the wire
   carries it; and that is the message itself exactly when an absent Test-ID has no bytes.
   */
  lemma EncodeThenDecode(p: Platform, ctx: Context, m: Message, room: nat, capacity: nat)
    requires p.Valid() && Configured(ctx) && EncodeVerdict(p, ctx, m, room) == Ok
    requires BodyStorage(p, m.body) <= capacity <= p.sizeMax
    ensures DecodeVerdict(p, ctx, MessageWire(m), capacity) == Decoded(OnTheWire(m))
    ensures DecodeVerdict(p, ctx, MessageWire(m), capacity) == Decoded(m) <==> Canonical(m)
  {
    var carried := OnTheWire(m);
    assert MessageWire(carried) == MessageWire(m);
    WireIsDecoded(p, ctx, carried, capacity);
  }

  /**
   Canonical form: a decoded message encodes, into a buffer of the original size, to the original bytes,
   padding and reserved bytes included, whenever it encodes at all; and it does, unless it is a discovery
   response of another protocol version.
   */
  lemma DecodeThenEncode(p: Platform, ctx: Context, bytes: seq<byte>, capacity: nat)
    requires p.Valid() && Configured(ctx) && DecodeVerdict(p, ctx, bytes, capacity).Decoded?
    ensures var m := DecodeVerdict(p, ctx, bytes, capacity).message;
            && MessageWire(m) == bytes
            && EncodeVerdict(p, ctx, m, |bytes|) == (if ExactVersion(m.body) then Ok else VersionMismatch)
  {
    DecodedIsWire(p, ctx, bytes, capacity);
  }

  /** A discovery response of version 1.0.0 is read but cannot be written by this library. */
  lemma OtherVersionIsReadOnly(p: Platform, room: nat) returns (ctx: Context, m: Message)
    requires p.Valid()
    ensures Configured(ctx) && DecodeVerdict(p, ctx, MessageWire(m), 0) == Decoded(m)
    ensures EncodeVerdict(p, ctx, m, room) != Ok
  {
    ctx := Context(4096, 65535, 1000000, true);
    m := Message(0, Zeros(TEST_ID_SIZE), SUBTYPE_BASIC, SystemInfo(1, 0, 0, 0, 0, 0, [], []));
    assert CommonFields(m) == Ok;
    WireIsDecoded(p, ctx, m, 0);
  }

  /** The bytes of an absent Test-ID do not survive the round trip. */
  lemma AbsentTestIdIsNotCarried(p: Platform, room: nat) returns (ctx: Context, m: Message)
    requires p.Valid() && room >= HEADER_SIZE + ARBITRARY_PREFIX
    ensures Configured(ctx) && EncodeVerdict(p, ctx, m, room) == Ok
    ensures DecodeVerdict(p, ctx, MessageWire(m), 0).Decoded? && DecodeVerdict(p, ctx, MessageWire(m), 0) != Decoded(m)
  {
    ctx := Context(4096, 65535, 1000000, true);
    m := Message(0, seq(TEST_ID_SIZE, i => 7), SUBTYPE_NONE, Arbitrary(0, []));
    assert CommonFields(m) == Ok;
    assert m.testId[0] == 7;
    EncodeThenDecode(p, ctx, m, room, 0);
  }

  // ---------------------------------------------------------------------------
  // Exact sizes
  // ---------------------------------------------------------------------------

  /**
   The size query is exact: for a valid message it reports n only if n is the wire size, and then encoding
   succeeds exactly with at least n bytes; if it reports a failure, no buffer is large enough.
   */
  lemma SizeIsExact(p: Platform, ctx: Context, m: Message, room: nat)
    requires p.Valid() && Configured(ctx) && Validity(ctx, m) == Ok
    ensures match SizeVerdict(p, ctx, m)
            case Size(n) =>
              n == |MessageWire(m)| <= ctx.maxMessage && (EncodeVerdict(p, ctx, m, room) == Ok <==> n <= room)
            case NoSize(_) => EncodeVerdict(p, ctx, m, room) != Ok
  {
  }

  /** Without validity the size query can succeed where encoding fails, and never the other way round. */
  lemma EncodableHasSize(p: Platform, ctx: Context, m: Message, room: nat)
    requires p.Valid() && Configured(ctx) && EncodeVerdict(p, ctx, m, room) == Ok
    ensures SizeVerdict(p, ctx, m) == Size(|MessageWire(m)|)
  {
    SizeIsExact(p, ctx, m, room);
  }

  /** A message with a reported size encodes into that many bytes exactly when the validator accepts it. */
  lemma SizedEncodesExactlyWhenValid(p: Platform, ctx: Context, m: Message)
    requires p.Valid() && Configured(ctx) && SizeVerdict(p, ctx, m).Size?
    ensures EncodeVerdict(p, ctx, m, SizeVerdict(p, ctx, m).bytes) == Ok <==> Validity(ctx, m) == Ok
  {
    if Validity(ctx, m) == Ok {
      SizeIsExact(p, ctx, m, SizeVerdict(p, ctx, m).bytes);
    }
  }

  /** The size query does not validate the record families: an Update without operations has a size. */
  lemma SizeDoesNotValidate(p: Platform, room: nat) returns (ctx: Context, m: Message)
    requires p.Valid()
    ensures Configured(ctx) && SizeVerdict(p, ctx, m).Size? && EncodeVerdict(p, ctx, m, room) == ValidationFailed
  {
    ctx := Context(4096, 65535, 1000000, true);
    m := Message(1, Zeros(TEST_ID_SIZE), SUBTYPE_NONE, Update(0, 0, []));
    assert CommonFields(m) == Ok;
  }

  // ---------------------------------------------------------------------------
  // The verdicts, case by case
  // ---------------------------------------------------------------------------

  /** A discovery response of another version than 0.4.0. */
  predicate OtherVersion(body: Body) {
    body.SystemInfo? && (body.protocolMajor, body.protocolMinor, body.protocolPatch) != (0, 4, 0)
  }

  /**
   Encoding into a buffer: an invalid message gets the validator's status; a valid one needs 23 bytes, the
   library's own version, and a size that the buffer, the configured limit and the size type all hold.
   */
  lemma EncodeVerdictExact(p: Platform, ctx: Context, m: Message, room: nat)
    requires p.Valid() && Configured(ctx)
    ensures var size := |MessageWire(m)|;
            EncodeVerdict(p, ctx, m, room)
            == if Validity(ctx, m) != Ok then Validity(ctx, m)
               else if room < 23 then BufferTooSmall
               else if OtherVersion(m.body) then VersionMismatch
               else if size > 23 + p.sizeMax then InvalidLength
               else if size > room || size > ctx.maxMessage then BufferTooSmall
               else Ok
  {
  }

  /** The first 23 bytes as written before the body: the message's own, with no payload length yet. */
  lemma HeaderBeforeBody(m: Message)
    requires !OtherVersion(m.body)
    ensures UnpatchedHeader(m) == MessageWire(m)[..21] + [0, 0]
  {
    hide BodyWire;
  }

  /**
   The size query: envelope checks, then for the byte-span families the whole validation and the library's
   version, then the limits. The fields of the record families play no part.
   */
  lemma SizeVerdictExact(p: Platform, ctx: Context, m: Message)
    requires p.Valid()
    ensures var size := |MessageWire(m)|;
            SizeVerdict(p, ctx, m)
            == if !ctx.initialized then NoSize(Uninitialized)
               else if CommonFields(m) != Ok then NoSize(CommonFields(m))
               else if OtherVersion(m.body) then NoSize(VersionMismatch)
               else if !m.body.Update? && !m.body.Captured? && BodyStatus(ctx, m.body) != Ok
               then NoSize(BodyStatus(ctx, m.body))
               else if size > 65558 || size > p.sizeMax then NoSize(InvalidLength)
               else if size > ctx.maxMessage then NoSize(BufferTooSmall)
               else Size(size)
  {
  }

  /** Why a body has no wire form: an enumeration, or a span, that does not fit its byte. */
  function UnfitStatus(body: Body): Status {
    match body
    case Update(_, _, operations) =>
      if forall i :: 0 <= i < |operations| ==> 0 <= operations[i].peripheral <= 255 then Ok else ValidationFailed
    case Captured(_, condition, _, _, captures) =>
      if 0 <= condition <= 255 && forall i :: 0 <= i < |captures| ==> 0 <= captures[i].peripheral <= 255 then Ok
      else ValidationFailed
    case SystemInfo(_, _, _, _, _, _, diagnostic, gitHash) =>
      if |diagnostic| <= 255 && |gitHash| <= 255 then Ok else InvalidLength
    case _ => Ok
  }

  /** Called on any body, valid or not, the body encoders refuse what they check themselves, in this order. */
  lemma BodyEncodersRefuse(p: Platform, ctx: Context, body: Body, capacity: nat)
    requires p.Valid()
    ensures RawEncodeVerdict(p, ctx, body, capacity)
         == if (body.Arbitrary? || body.Error?) && BodyStatus(ctx, body) != Ok then BodyStatus(ctx, body)
            else if OtherVersion(body) then VersionMismatch
            else if |BodyWire(body)| > p.sizeMax then InvalidLength
            else if |BodyWire(body)| > capacity then BufferTooSmall
            else UnfitStatus(body)
  {
    hide BodyWire;
    hide ListVerdict;
    hide ErrorStatus;
  }

  // ---------------------------------------------------------------------------
  // Storage layout
  // ---------------------------------------------------------------------------

  /** The end of the data of the first `i` records in the storage. */
  function DataEnd(p: Platform, kind: Kind, records: seq<Record>, i: nat): nat
    requires p.Valid() && i <= |records|
  {
    PoolOffset(p, kind, |records|) + |Data(records[..i])|
  }

  lemma {:induction false} DescriptorInArray(
      cells: seq<Cell>, at: nat, size: nat, records: seq<Record>, data: nat, i: nat)
    requires size > 0 && i < |records| && at + |records| * size <= |cells|
    requires cells[at..at + |records| * size] == Descriptors(size, records, data)
    ensures DescriptorAt(cells, at + i * size, size) == Some(DescriptorOf(records[i], data + |Data(records[..i])|))
    decreases |records|
  {
    var rest := records[1..];
    ArrayHead(cells, at, size, records, data);
    if i == 0 {
      DescriptorReadsBack(cells, at, DescriptorOf(records[0], data), size);
      assert i * size == 0;
    } else {
      DescriptorInArray(cells, at + size, size, rest, data + |records[0].data|, i - 1);
      assert (i - 1) * size + size == i * size;
      assert records[..i][0] == records[0] && records[..i][1..] == rest[..i - 1];
    }
  }

  lemma DataEnds(p: Platform, kind: Kind, records: seq<Record>, i: nat)
    requires p.Valid() && i < |records|
    ensures DataEnd(p, kind, records, i) + |records[i].data| == DataEnd(p, kind, records, i + 1)
    ensures |records| * DescriptorSize(p, kind) <= DataEnd(p, kind, records, 0)
    ensures DataEnd(p, kind, records, 0) % p.alignment == 0
    ensures DataEnd(p, kind, records, |records|) == StorageNeeded(p, kind, records)
  {
    RoundUpIsLeastMultiple(|records| * DescriptorSize(p, kind), p.alignment);
    hide RoundUp;
    assert records[..i] + [records[i]] == records[..i + 1];
    DataSnoc(records[..i], records[i]);
    assert records[..|records|] == records;
  }

  /**
   The layout of a decoded list: descriptor i points right behind the data of the records before it. So the
   spans are disjoint and contiguous, start at the aligned pool offset behind the descriptor array, and end
   at the last byte of the storage the scan reported.
   */
  lemma SpansTileTheStorage(p: Platform, kind: Kind, records: seq<Record>, cells: seq<Cell>, i: nat)
    requires p.Valid() && ListStored(p, kind, records, cells) && i < |records|
    ensures var size := DescriptorSize(p, kind);
            && DescriptorAt(cells, i * size, size) == Some(DescriptorOf(records[i], DataEnd(p, kind, records, i)))
            && DataEnd(p, kind, records, i) + |records[i].data| == DataEnd(p, kind, records, i + 1)
            && |records| * size <= DataEnd(p, kind, records, 0)
            && DataEnd(p, kind, records, 0) % p.alignment == 0
            && DataEnd(p, kind, records, |records|) == StorageNeeded(p, kind, records)
  {
    DescriptorInArray(cells, 0, DescriptorSize(p, kind), records, PoolOffset(p, kind, |records|), i);
    hide ListStored;
    hide DescriptorAt;
    DataEnds(p, kind, records, i);
  }

  /** Different records never share a storage byte, and come in their own order. */
  lemma {:induction false} SpansAreDisjoint(p: Platform, kind: Kind, records: seq<Record>, i: nat, j: nat)
    requires p.Valid() && i < j < |records|
    ensures DataEnd(p, kind, records, i) + |records[i].data| <= DataEnd(p, kind, records, j)
    decreases j
  {
    assert records[..j - 1] + [records[j - 1]] == records[..j];
    DataSnoc(records[..j - 1], records[j - 1]);
    if i < j - 1 {
      SpansAreDisjoint(p, kind, records, i, j - 1);
    }
  }

  /** The storage of a decoded body: its bytes, behind the rounded-up descriptors of its records if it has any. */
  lemma StorageIsDescriptorsAndBytes(p: Platform, body: Body)
    requires p.Valid()
    ensures BodyStorage(p, body)
         == match body
            case Update(_, _, operations) =>
              if operations == [] then 0
              else RoundUp(|operations| * p.operationSize, p.alignment) + |Data(operations)|
            case Captured(_, _, _, _, captures) =>
              if captures == [] then 0
              else RoundUp(|captures| * p.recordSize, p.alignment) + |Data(captures)|
            case Arbitrary(_, payload) => |payload|
            case Error(_, _, _, _, _, diagnostic) => |diagnostic|
            case SystemInfo(_, _, _, _, _, _, diagnostic, gitHash) => |diagnostic| + |gitHash|
  {
  }

  /** Although the count byte allows 255 records, the descriptor part of the storage is small. */
  lemma DescriptorStorageIsBounded(p: Platform, ctx: Context, kind: Kind, records: seq<Record>)
    requires p.Valid() && ListVerdict(ctx, kind, records, {}) == Ok
    ensures StorageNeeded(p, kind, records)
            < B.Bound(kind) * DescriptorSize(p, kind) + p.alignment + |Data(records)|
  {
    B.AcceptedListIsShort(ctx, kind, records);
    PoolIsMonotone(p, kind, |records|, B.Bound(kind));
    assert B.Bound(kind) * DescriptorSize(p, kind) >= 0;
  }
}

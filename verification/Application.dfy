/**
 The codec's façade: initialisation, encoding into a caller's buffer and decoding into a caller's storage,
 and the laws that tie them together.
 */
module Application {
  import opened Wire
  import opened Buffers
  import opened Records
  import opened RecordScan
  import opened Messages
  import opened Envelopes
  import opened Encoding
  import opened Scanners
  import opened DecodeStorage
  import opened Decoding

  const UNPUBLISHED := Context(0, 0, 0, false)

  /** `Init`: a context is published exactly when the limits are in range, and is cleared otherwise. */
  method Init(maxMessage: nat, maxVariable: nat, maxTicks: u32) returns (status: Status, ctx: Context)
    ensures Configured(ctx)
    ensures if 28 <= maxMessage <= 65535 && maxVariable <= 65535 && maxTicks <= 1000000
            then status == Ok && ctx == Context(maxMessage, maxVariable, maxTicks, true)
            else status != Ok && ctx == UNPUBLISHED
    ensures status == BufferTooSmall <==> maxMessage < 28
    ensures status == InvalidCount <==> 28 <= maxMessage <= 65535 && maxVariable > 65535
    ensures status == InvalidLength <==>
              maxMessage > 65535 || (maxMessage >= 28 && maxVariable <= 65535 && maxTicks > 1000000)
  {
    ctx := UNPUBLISHED;
    if maxMessage < MIN_MESSAGE {
      return BufferTooSmall, ctx;
    }
    if maxMessage > MAX_MESSAGE {
      return InvalidLength, ctx;
    }
    if maxVariable > 65535 {
      return InvalidCount, ctx;
    }
    if maxTicks > MAX_TICKS {
      return InvalidLength, ctx;
    }
    return Ok, Context(maxMessage, maxVariable, maxTicks, true);
  }

  // ---------------------------------------------------------------------------
  // Encoding
  // ---------------------------------------------------------------------------

  /** The bytes a body may take: what the buffer leaves, and never more than the configured limit leaves. */
  function PayloadCapacity(ctx: Context, room: nat): nat
    requires WithinLimits(ctx) && room >= HEADER_SIZE
  {
    if room < ctx.maxMessage then room - HEADER_SIZE else ctx.maxMessage - HEADER_SIZE
  }

  /** `Encode_Message` into a buffer of `room` bytes. */
  function EncodeVerdict(p: Platform, ctx: Context, m: Message, room: nat): Status
    requires Configured(ctx)
  {
    if Validity(ctx, m) != Ok then Validity(ctx, m)
    else if room < HEADER_SIZE then BufferTooSmall
    else BodyEncodeVerdict(p, m.body, PayloadCapacity(ctx, room))
  }

  /** The header as first written: the payload length is patched in after the body is known to fit. */
  function UnpatchedHeader(m: Message): (wire: seq<byte>)
    ensures |wire| == HEADER_SIZE
  {
    HeaderWire(VERSION_MAJOR, VERSION_MINOR, m.hasTestId, IdWire(m.hasTestId, m.testId), TypeOf(m.body),
               WireByte(m.subtype), 0)
  }

  method HeaderEncoding(m: Message, out: array<byte>) returns (status: Status)
    modifies out
    ensures status == if out.Length < HEADER_SIZE then BufferTooSmall else CommonFields(m)
    ensures if status == Ok then Wrote(old(out[..]), out[..], 0, UnpatchedHeader(m)) else out[..] == old(out[..])
  {
    if out.Length < HEADER_SIZE {
      return BufferTooSmall;
    }
    status := CommonFields(m);
    if status != Ok {
      return;
    }
    ghost var before := out[..];
    WroteNothing(before, 0);
    ghost var sofar := [];
    var at := Append(out, before, 0, sofar, 0, [VERSION_MAJOR, VERSION_MINOR, m.hasTestId]);
    sofar := sofar + [VERSION_MAJOR as byte, VERSION_MINOR as byte, m.hasTestId];
    if m.hasTestId == 1 {
      at := Append(out, before, 0, sofar, at, m.testId);
    } else {
      at := Append(out, before, 0, sofar, at, Zeros(TEST_ID_SIZE));
    }
    sofar := sofar + IdWire(m.hasTestId, m.testId);
    if !Wireable(m.subtype) {
      assert false;
    }
    at := Append(out, before, 0, sofar, at, [TypeOf(m.body), m.subtype]);
    sofar := sofar + [TypeOf(m.body), WireByte(m.subtype)];
    at := Append(out, before, 0, sofar, at, U16Le(0));
    assert sofar + U16Le(0) == UnpatchedHeader(m);
  }

  /** Header, body and the patched length make the message's wire form. */
  lemma PatchedHeader(
      m: Message, before: seq<byte>, header: seq<byte>, body: seq<byte>, after: seq<byte>)
    requires ExactVersion(m.body) && |BodyWire(m.body)| <= 0xFFFF
    requires Wrote(before, header, 0, UnpatchedHeader(m))
    requires Wrote(header, body, HEADER_SIZE, BodyWire(m.body))
    requires Wrote(body, after, 21, U16Le(|BodyWire(m.body)|))
    ensures Wrote(before, after, 0, MessageWire(m))
  {
    hide BodyWire;
    hide Wrote;
    var length := U16Le(|BodyWire(m.body)|);
    WrotePatched(before, header, body, after, UnpatchedHeader(m), BodyWire(m.body), 21, length);
    assert UnpatchedHeader(m)[..21] + length + BodyWire(m.body) == MessageWire(m);
  }

  /**
   `Encode_Message`: on success the buffer starts with exactly the message's wire form and the rest of it
   is untouched; on failure no size is reported and at most the header area has been written.
   */
  method EncodeMessage(p: Platform, ctx: Context, m: Message, out: array<byte>) returns (status: Status, size: nat)
    requires p.Valid() && Configured(ctx)
    modifies out
    ensures status == EncodeVerdict(p, ctx, m, out.Length)
    ensures status == Ok ==> size == |MessageWire(m)| && Wrote(old(out[..]), out[..], 0, MessageWire(m))
    ensures status != Ok ==>
              size == 0 && (out[..] == old(out[..]) || Wrote(old(out[..]), out[..], 0, UnpatchedHeader(m)))
  {
    if !ctx.initialized {
      return Uninitialized, 0;
    }
    status := ValidateMessage(ctx, m);
    if status != Ok {
      return status, 0;
    }
    if out.Length < HEADER_SIZE {
      return BufferTooSmall, 0;
    }
    ghost var before := out[..];
    status := HeaderEncoding(m, out);
    if status != Ok {
      assert false;
    }
    ghost var header := out[..];
    var capacity := out.Length - HEADER_SIZE;
    var configured := ctx.maxMessage - HEADER_SIZE;
    if capacity > configured {
      capacity := configured;
    }
    ValidBodyEncodes(p, ctx, m.body, capacity);
    var used;
    status, used := BodyEncode(p, ctx, m.body, out, HEADER_SIZE, capacity);
    if status != Ok {
      return status, 0;
    }
    ghost var body := out[..];
    if used > capacity || used > 0xFFFF {
      assert false;
    } else {
      var total := CheckedAdd(p, HEADER_SIZE, used);
      if total.None? {
        assert false;
      } else {
        if total.value > ctx.maxMessage {
          assert false;
        }
        Copy(out, 21, U16Le(used));
        PatchedHeader(m, before, header, body, out[..]);
        return Ok, total.value;
      }
    }
  }

  // ---------------------------------------------------------------------------
  // Decoding
  // ---------------------------------------------------------------------------

  datatype NativeMessage = NativeMessage(hasTestId: byte, testId: TestId, subtype: int, body: Native)

  datatype Outcome =
    Published(message: NativeMessage, used: nat) | Rejection(status: Status) | Elsewhere(messageType: byte)

  function NativeMessageOf(m: Message): NativeMessage {
    NativeMessage(m.hasTestId, m.testId, m.subtype, NativeOf(m.body))
  }

  /**
   `Decode_Message`: the verdict on the bytes; on success the native message, the storage it points into,
   the exact number of storage bytes used, and nothing written beyond them.
   */
  method DecodeMessage(p: Platform, ctx: Context, bytes: seq<byte>, storage: array<Cell>) returns (outcome: Outcome)
    requires p.Valid() && Configured(ctx)
    modifies storage
    ensures match DecodeVerdict(p, ctx, bytes, storage.Length)
            case Undecoded(status) => outcome == Rejection(status)
            case ElsewhereDecoded(messageType) => outcome == Elsewhere(messageType)
            case Decoded(m) =>
              && outcome == Published(NativeMessageOf(m), BodyStorage(p, m.body))
              && Stored(p, m.body, storage[..])
              && storage[BodyStorage(p, m.body)..] == old(storage[BodyStorage(p, m.body)..])
  {
    if !ctx.initialized {
      return Rejection(Uninitialized);
    }
    if |bytes| > ctx.maxMessage {
      return Rejection(InvalidLength);
    }
    var header := HeaderDecoding(bytes);
    if header.BadHeader? {
      return Rejection(header.status);
    }
    var e := header.envelope;
    var total := CheckedAdd(p, HEADER_SIZE, e.length);
    if total.None? {
      return Rejection(InvalidLength);
    }
    if total.value > |bytes| {
      return Rejection(TruncatedMessage);
    }
    if total.value != |bytes| {
      return Rejection(MalformedMessage);
    }
    var payload := bytes[HEADER_SIZE..];
    var modelled, result := BodyDecode(p, ctx, e.messageType, payload, storage);
    if !modelled {
      return Elsewhere(e.messageType);
    }
    if result.status != Ok {
      return Rejection(result.status);
    }
    if result.consumed != |payload| {
      assert false;
    }
    ghost var body := ReadMessage(p, ctx, bytes).message.body;
    var native := result.native.value;
    var status := ValidateDecoded(p, ctx, e, native, storage[..], body);
    if status != Ok {
      return Rejection(status);
    }
    return Published(NativeMessage(e.hasTestId, e.testId, e.subtype, native), result.used);
  }

  /** The checks after the body: the repeated discovery version, then the typed validation through the pointers. */
  method ValidateDecoded(
      p: Platform, ctx: Context, e: Envelope, native: Native, cells: seq<Cell>, ghost body: Body)
    returns (status: Status)
    requires p.Valid() && native == NativeOf(body) && Stored(p, body, cells) && (body.Update? ==> body.operations != [])
    ensures status == if !DiscoveryAgrees(e, body) then MalformedMessage
                      else Validity(ctx, Message(e.hasTestId, e.testId, e.subtype, body))
  {
    StoredReadsBack(p, body, cells);
    if native.NativeInfo? && (native.protocolMajor != e.major || native.protocolMinor != e.minor) {
      return MalformedMessage;
    }
    var seen := View(p, cells, native);
    if seen.None? {
      assert false;
    } else {
      status := ValidateMessage(ctx, Message(e.hasTestId, e.testId, e.subtype, seen.value));
    }
  }
}

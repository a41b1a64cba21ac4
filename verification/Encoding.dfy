/**
 Sizing and encoding. The sizers accumulate checked sizes; the encoders write into the caller's buffer
 through a running offset. Both are proved against the wire form.
 */
module Encoding {
  import opened Sequences
  import opened Wire
  import opened Buffers
  import opened Records
  import opened RecordScan
  import opened Messages

  // ---------------------------------------------------------------------------
  // Sizes
  // ---------------------------------------------------------------------------

  /** Add one record's wire size, with every addition checked. */
  method AlignedRecordSize(p: Platform, data: Span, total: nat) returns (sum: Option<nat>)
    requires total <= p.sizeMax
    ensures var exact := total + RECORD_HEADER + |data| + Pad4(|data|);
            sum == if exact <= p.sizeMax then Some(exact) else None
  {
    var size := CheckedAdd(p, RECORD_HEADER, |data|);
    if size.None? {
      return None;
    }
    size := CheckedAdd(p, size.value, Pad4(|data|));
    if size.None? {
      return None;
    }
    return CheckedAdd(p, total, size.value);
  }

  lemma {:induction false} RecordsWireSplit(records: seq<Record>, i: nat)
    requires i <= |records|
    ensures RecordsWire(records) == RecordsWire(records[..i]) + RecordsWire(records[i..])
    decreases i
  {
    hide RecordWire;
    if i == 0 {
      assert records[0..] == records && records[..0] == [];
    } else {
      RecordsWireSplit(records, i - 1);
      RecordsWireSnoc(records[..i - 1], records[i - 1]);
      assert records[..i - 1] + [records[i - 1]] == records[..i];
      assert records[i - 1..][0] == records[i - 1] && records[i - 1..][1..] == records[i..];
      Associate(RecordsWire(records[..i - 1]), RecordWire(records[i - 1]), RecordsWire(records[i..]));
    }
  }

  /** One more record, and still within the whole. */
  lemma RecordsWireStep(records: seq<Record>, i: nat)
    requires i < |records|
    ensures RecordsWire(records[..i + 1]) == RecordsWire(records[..i]) + RecordWire(records[i])
    ensures |RecordsWire(records[..i])| <= |RecordsWire(records[..i + 1])| <= |RecordsWire(records)|
  {
    RecordsWireSplit(records, i + 1);
    RecordsWireSnoc(records[..i], records[i]);
    assert records[..i] + [records[i]] == records[..i + 1];
  }

  /** The sizers of the two record families: the header, then every record. */
  method RecordListSize(p: Platform, header: nat, records: seq<Record>) returns (status: Status, size: nat)
    requires header <= p.sizeMax
    ensures var exact := header + |RecordsWire(records)|;
            if exact <= p.sizeMax then status == Ok && size == exact else status == InvalidLength && size == 0
  {
    var total := header;
    var i := 0;
    while i < |records|
      invariant 0 <= i <= |records|
      invariant total == header + |RecordsWire(records[..i])| <= p.sizeMax
    {
      RecordsWireStep(records, i);
      var sum := AlignedRecordSize(p, records[i].data, total);
      if sum.None? {
        return InvalidLength, 0;
      }
      total := sum.value;
      i := i + 1;
    }
    assert records[..i] == records;
    return Ok, total;
  }

  predicate ExactVersion(body: Body) {
    body.SystemInfo? ==>
      body.protocolMajor == VERSION_MAJOR && body.protocolMinor == VERSION_MINOR && body.protocolPatch == VERSION_PATCH
  }

  /** What a sizer checks before it sizes: the record families leave validation to the encoder. */
  function SizerStatus(ctx: Context, body: Body): Status {
    match body
    case Update(_, _, _) => Ok
    case Captured(_, _, _, _, _) => Ok
    case SystemInfo(_, _, _, _, _, _, _, _) => if !ExactVersion(body) then VersionMismatch else BodyStatus(ctx, body)
    case _ => BodyStatus(ctx, body)
  }

  method BodySize(p: Platform, ctx: Context, body: Body) returns (status: Status, size: nat)
    requires p.Valid()
    ensures if SizerStatus(ctx, body) != Ok then status == SizerStatus(ctx, body)
            else if |BodyWire(body)| <= p.sizeMax then status == Ok && size == |BodyWire(body)|
            else status == InvalidLength
  {
    size := 0;
    match body
    case Update(_, _, operations) =>
      status, size := RecordListSize(p, UPDATE_HEADER, operations);
    case Captured(_, _, _, _, captures) =>
      status, size := RecordListSize(p, RESULT_HEADER, captures);
    case Arbitrary(_, payload) =>
      status := BodyStatus(ctx, body);
      if status == Ok {
        var sum := CheckedAdd(p, ARBITRARY_PREFIX, |payload|);
        if sum.None? {
          status := InvalidLength;
        } else {
          size := sum.value;
        }
      }
    case Error(_, _, _, _, _, diagnostic) =>
      status := ErrorStatus(ctx, body);
      if status == Ok {
        var sum := CheckedAdd(p, ERROR_FIXED, |diagnostic|);
        if sum.None? {
          assert false;
        } else {
          size := sum.value;
        }
      }
    case SystemInfo(_, _, _, _, _, _, diagnostic, gitHash) =>
      if !ExactVersion(body) {
        return VersionMismatch, 0;
      }
      status := SystemInfoStatus(ctx, body);
      if status == Ok {
        var sum := CheckedAdd(p, INFO_FIXED + 2, |gitHash| + |diagnostic|);
        if sum.None? {
          assert false;
        } else {
          size := sum.value;
        }
      }
  }

  datatype Size = Size(bytes: nat) | NoSize(status: Status)

  /** `Encoded_Size`: the whole message's wire size, if it fits the length field and the configured limit. */
  function SizeVerdict(p: Platform, ctx: Context, m: Message): Size {
    if !ctx.initialized then NoSize(Uninitialized)
    else if CommonFields(m) != Ok then NoSize(CommonFields(m))
    else if SizerStatus(ctx, m.body) != Ok then NoSize(SizerStatus(ctx, m.body))
    else if |BodyWire(m.body)| > 0xFFFF || |MessageWire(m)| > p.sizeMax then NoSize(InvalidLength)
    else if |MessageWire(m)| > ctx.maxMessage then NoSize(BufferTooSmall)
    else Size(|MessageWire(m)|)
  }

  method EncodedSize(p: Platform, ctx: Context, m: Message) returns (size: Size)
    requires p.Valid()
    ensures size == SizeVerdict(p, ctx, m)
  {
    if !ctx.initialized {
      return NoSize(Uninitialized);
    }
    var status := CommonFields(m);
    if status != Ok {
      return NoSize(status);
    }
    var bodySize;
    status, bodySize := BodySize(p, ctx, m.body);
    if status != Ok {
      return NoSize(status);
    }
    if bodySize > 0xFFFF {
      return NoSize(InvalidLength);
    }
    var total := CheckedAdd(p, HEADER_SIZE, bodySize);
    if total.None? {
      return NoSize(InvalidLength);
    }
    if total.value > ctx.maxMessage {
      return NoSize(BufferTooSmall);
    }
    return Size(total.value);
  }

  // ---------------------------------------------------------------------------
  // Encoding into a buffer
  // ---------------------------------------------------------------------------

  /** Append to what has been written since `base`; `at` is the running offset. */
  method Append(
      out: array<byte>, ghost before: seq<byte>, ghost base: nat, ghost sofar: seq<byte>, at: nat, s: seq<byte>)
    returns (next: nat)
    requires Wrote(before, out[..], base, sofar) && at == base + |sofar| && at + |s| <= out.Length
    modifies out
    ensures Wrote(before, out[..], base, sofar + s) && next == at + |s|
  {
    ghost var middle := out[..];
    Copy(out, at, s);
    WroteThen(before, middle, out[..], base, sofar, s);
    next := at + |s|;
  }

  predicate Wireable(value: int) {
    0 <= value < 256
  }

  /** Every peripheral number fits its wire byte. */
  predicate AllWireable(records: seq<Record>) {
    forall i | 0 <= i < |records| :: Wireable(records[i].peripheral)
  }

  /** Nothing outside the given stretch of the buffer has changed. */
  ghost predicate Confined(before: seq<byte>, after: seq<byte>, from: nat, to: nat) {
    && from <= to <= |before| == |after|
    && after[..from] == before[..from] && after[to..] == before[to..]
  }

  lemma WroteIsConfined(before: seq<byte>, after: seq<byte>, at: nat, s: seq<byte>, to: nat)
    requires Wrote(before, after, at, s) && at + |s| <= to <= |before|
    ensures Confined(before, after, at, to)
  {
    assert after[to..] == after[at + |s|..][to - at - |s|..];
    assert before[to..] == before[at + |s|..][to - at - |s|..];
  }

  method AlignedRecordEncode(
      r: Record, out: array<byte>, ghost before: seq<byte>, ghost base: nat, ghost sofar: seq<byte>, at: nat)
    returns (status: Status, next: nat)
    requires Wrote(before, out[..], base, sofar) && at == base + |sofar| && at + |RecordWire(r)| <= out.Length
    modifies out
    ensures status == if Wireable(r.peripheral) then Ok else ValidationFailed
    ensures if status == Ok then Wrote(before, out[..], base, sofar + RecordWire(r)) && next == at + |RecordWire(r)|
            else out[..] == old(out[..]) && next == at
  {
    next := at;
    if !Wireable(r.peripheral) {
      return ValidationFailed, next;
    }
    ghost var head := [WireByte(r.peripheral), r.channel];
    next := Append(out, before, base, sofar, next, [r.peripheral, r.channel]);
    next := Append(out, before, base, sofar + head, next, U16Le(|r.data|));
    next := Append(out, before, base, sofar + head + U16Le(|r.data|), next, r.data);
    next := Append(out, before, base, sofar + head + U16Le(|r.data|) + r.data, next, Zeros(Pad4(|r.data|)));
    Associate(sofar, head, U16Le(|r.data|));
    Associate(sofar, head + U16Le(|r.data|), r.data);
    Associate(sofar, head + U16Le(|r.data|) + r.data, Zeros(Pad4(|r.data|)));
    return Ok, next;
  }

  lemma {:induction false} AcceptedRecordIsWireable(
      ctx: Context, kind: Kind, records: seq<Record>, pairs: set<Pair>, i: nat)
    requires ListVerdict(ctx, kind, records, pairs) == Ok && i < |records|
    ensures 0 <= records[i].peripheral < MASK_COUNT
    decreases i
  {
    if i == 0 {
    } else {
      AcceptedRecordIsWireable(ctx, kind, records[1..], pairs + {PairOf(records[0])}, i - 1);
    }
  }

  /** The buffer during the record loop: the first `i` records are written behind what was there. */
  ghost predicate PartWritten(
      before: seq<byte>, after: seq<byte>, base: nat, sofar: seq<byte>, records: seq<Record>, i: nat)
  {
    i <= |records| && Wrote(before, after, base, sofar + RecordsWire(records[..i]))
  }

  /** One turn of the record loop. */
  method NextRecordEncode(
      records: seq<Record>, i: nat, out: array<byte>, ghost before: seq<byte>, ghost base: nat, ghost sofar: seq<byte>,
      at: nat)
    returns (status: Status, next: nat)
    requires i < |records| && PartWritten(before, out[..], base, sofar, records, i)
    requires at == base + |sofar| + |RecordsWire(records[..i])|
    requires base + |sofar| + |RecordsWire(records)| <= out.Length
    modifies out
    ensures status == if Wireable(records[i].peripheral) then Ok else ValidationFailed
    ensures status == Ok ==>
              && PartWritten(before, out[..], base, sofar, records, i + 1)
              && next == base + |sofar| + |RecordsWire(records[..i + 1])|
    ensures status != Ok ==> Confined(before, out[..], base, base + |sofar| + |RecordsWire(records)|)
  {
    RecordsWireStep(records, i);
    ghost var written := sofar + RecordsWire(records[..i]);
    status, next := AlignedRecordEncode(records[i], out, before, base, written, at);
    if status == Ok {
      Associate(sofar, RecordsWire(records[..i]), RecordWire(records[i]));
    } else {
      WroteIsConfined(before, out[..], base, written, base + |sofar| + |RecordsWire(records)|);
    }
  }

  /** The record loop of the two variable encoders. A record that has no wire form stops it where it is. */
  method RecordListEncode(
      records: seq<Record>, out: array<byte>, ghost before: seq<byte>, ghost base: nat, ghost sofar: seq<byte>, at: nat)
    returns (status: Status, next: nat)
    requires Wrote(before, out[..], base, sofar) && at == base + |sofar| && at + |RecordsWire(records)| <= out.Length
    modifies out
    ensures status == if AllWireable(records) then Ok else ValidationFailed
    ensures if status == Ok then
              Wrote(before, out[..], base, sofar + RecordsWire(records)) && next == at + |RecordsWire(records)|
            else Confined(before, out[..], base, at + |RecordsWire(records)|)
  {
    hide Wrote;
    hide Confined;
    next := at;
    var i := 0;
    assert sofar + [] == sofar;
    while i < |records|
      invariant 0 <= i <= |records| && forall k | 0 <= k < i :: Wireable(records[k].peripheral)
      invariant PartWritten(before, out[..], base, sofar, records, i)
      invariant next == base + |sofar| + |RecordsWire(records[..i])|
    {
      status, next := NextRecordEncode(records, i, out, before, base, sofar, next);
      if status != Ok {
        return;
      }
      i := i + 1;
    }
    assert records[..i] == records;
    return Ok, next;
  }

  lemma ConfinedIn(before: seq<byte>, after: seq<byte>, from: nat, to: nat, end: nat)
    requires Confined(before, after, from, to) && to <= end <= |before|
    ensures Confined(before, after, from, end)
  {
    assert after[end..] == after[to..][end - to..] && before[end..] == before[to..][end - to..];
  }

  /** A one-byte length and the span's bytes. */
  method ByteSpanEncode(
      p: Platform, span: Span, out: array<byte>, capacity: nat, ghost before: seq<byte>, ghost base: nat,
      ghost sofar: seq<byte>, at: nat)
    returns (status: Status, next: nat)
    requires p.Valid()
    requires Wrote(before, out[..], base, sofar) && at == base + |sofar| && at + capacity <= out.Length
    modifies out
    ensures status == if 1 + |span| > p.sizeMax then InvalidLength
                      else if capacity < 1 + |span| then BufferTooSmall
                      else if |span| > 255 then InvalidLength
                      else Ok
    ensures if status == Ok then Wrote(before, out[..], base, sofar + SpanWire(span)) && next == at + |SpanWire(span)|
            else out[..] == old(out[..]) && next == at
  {
    next := at;
    var required := CheckedAdd(p, 1, |span|);
    if required.None? {
      return InvalidLength, next;
    }
    if capacity < required.value {
      return BufferTooSmall, next;
    }
    if |span| > 255 {
      return InvalidLength, next;
    }
    next := Append(out, before, base, sofar, next, [|span|]);
    next := Append(out, before, base, sofar + [WireByte(|span|)], next, span);
    assert sofar + [WireByte(|span|)] + span == sofar + SpanWire(span);
    return Ok, next;
  }

  /** The verdict of a body encoder on a valid body. */
  function BodyEncodeVerdict(p: Platform, body: Body, capacity: nat): Status {
    if !ExactVersion(body) then VersionMismatch
    else if |BodyWire(body)| > p.sizeMax then InvalidLength
    else if |BodyWire(body)| > capacity then BufferTooSmall
    else Ok
  }

  /** What a body encoder checks before it sizes the body: the record families are not validated here. */
  function EncoderStatus(ctx: Context, body: Body): Status {
    if body.Arbitrary? || body.Error? then BodyStatus(ctx, body) else Ok
  }

  /** Enumerations and span lengths fit their wire bytes; other bodies have been checked by then. */
  predicate HasWireForm(body: Body) {
    && (body.Update? ==> AllWireable(body.operations))
    && (body.Captured? ==> Wireable(body.condition) && AllWireable(body.captures))
    && (body.SystemInfo? ==> |body.diagnostic| <= 255 && |body.gitHash| <= 255)
  }

  function NoWireForm(body: Body): Status {
    if body.SystemInfo? then InvalidLength else ValidationFailed
  }

  /** The verdict of a body encoder on any body. */
  function RawEncodeVerdict(p: Platform, ctx: Context, body: Body, capacity: nat): Status {
    if EncoderStatus(ctx, body) != Ok then EncoderStatus(ctx, body)
    else if BodyEncodeVerdict(p, body, capacity) != Ok then BodyEncodeVerdict(p, body, capacity)
    else if !HasWireForm(body) then NoWireForm(body)
    else Ok
  }

  /** On a valid body nothing but the version and the two sizes can stop an encoder. */
  lemma ValidBodyEncodes(p: Platform, ctx: Context, body: Body, capacity: nat)
    requires BodyStatus(ctx, body) == Ok
    ensures RawEncodeVerdict(p, ctx, body, capacity) == BodyEncodeVerdict(p, body, capacity)
    ensures HasWireForm(body)
  {
    if body.Update? {
      forall i | 0 <= i < |body.operations|
        ensures Wireable(body.operations[i].peripheral)
      {
        AcceptedRecordIsWireable(ctx, Operations, body.operations, {}, i);
      }
    } else if body.Captured? {
      forall i | 0 <= i < |body.captures|
        ensures Wireable(body.captures[i].peripheral)
      {
        AcceptedRecordIsWireable(ctx, Captures, body.captures, {}, i);
      }
    }
  }

  /**
   The contract of every body encoder: the verdict, the bytes written, and an untouched buffer on refusal;
   only a record or a span without a wire form can leave part of a body, within the capacity.
   */
  twostate predicate BodyEncoded(
      p: Platform, ctx: Context, body: Body, out: array<byte>, base: nat, capacity: nat, status: Status, used: nat)
    reads out
  {
    && status == RawEncodeVerdict(p, ctx, body, capacity)
    && (status == Ok ==> used == |BodyWire(body)| && Wrote(old(out[..]), out[..], base, BodyWire(body)))
    && (status != Ok ==> used == 0 && Confined(old(out[..]), out[..], base, base + capacity))
    && (status != Ok && HasWireForm(body) ==> out[..] == old(out[..]))
  }

  method UpdateHeaderEncode(body: Body, out: array<byte>, base: nat) returns (at: nat)
    requires body.Update? && base + UPDATE_HEADER <= out.Length
    modifies out
    ensures Wrote(old(out[..]), out[..], base, UpdateHeader(body.tick, |body.operations|, body.flags))
    ensures at == base + UPDATE_HEADER
  {
    ghost var before := out[..];
    WroteNothing(before, base);
    ghost var a, b := U32Le(body.tick), [|body.operations| as byte, body.flags];
    at := Append(out, before, base, [], base, U32Le(body.tick));
    at := Append(out, before, base, [] + a, at, [|body.operations|, body.flags]);
    at := Append(out, before, base, [] + a + b, at, U16Le(0));
    assert [] + a + b + U16Le(0) == UpdateHeader(body.tick, |body.operations|, body.flags);
  }

  method CapturedHeaderEncode(body: Body, out: array<byte>, base: nat) returns (at: nat)
    requires body.Captured? && Wireable(body.condition) && base + RESULT_HEADER <= out.Length
    modifies out
    ensures Wrote(old(out[..]), out[..], base,
                  CapturedHeader(body.tick, |body.captures|, body.condition, body.flags, body.problemDetail))
    ensures at == base + RESULT_HEADER
  {
    ghost var before := out[..];
    WroteNothing(before, base);
    ghost var a, b := U32Le(body.tick), [|body.captures| as byte, WireByte(body.condition), body.flags, 0];
    at := Append(out, before, base, [], base, U32Le(body.tick));
    at := Append(out, before, base, [] + a, at, [|body.captures|, body.condition, body.flags, 0]);
    at := Append(out, before, base, [] + a + b, at, U32Le(body.problemDetail));
    assert [] + a + b + U32Le(body.problemDetail)
           == CapturedHeader(body.tick, |body.captures|, body.condition, body.flags, body.problemDetail);
  }

  method UpdateInstructionEncode(p: Platform, ctx: Context, body: Body, out: array<byte>, base: nat, capacity: nat)
    returns (status: Status, used: nat)
    requires p.Valid() && body.Update? && base + capacity <= out.Length
    modifies out
    ensures BodyEncoded(p, ctx, body, out, base, capacity, status, used)
  {
    hide Wrote;
    var required;
    status, required := RecordListSize(p, UPDATE_HEADER, body.operations);
    if status != Ok {
      return status, 0;
    }
    if capacity < required {
      return BufferTooSmall, 0;
    }
    ghost var before := out[..];
    var at := UpdateHeaderEncode(body, out, base);
    ghost var header := UpdateHeader(body.tick, |body.operations|, body.flags);
    status, at := RecordListEncode(body.operations, out, before, base, header, at);
    if status != Ok {
      ConfinedIn(before, out[..], base, base + required, base + capacity);
      return status, 0;
    }
    if at - base != required {
      assert false;
    }
    return Ok, at - base;
  }

  method VariableTestResultEncode(p: Platform, ctx: Context, body: Body, out: array<byte>, base: nat, capacity: nat)
    returns (status: Status, used: nat)
    requires p.Valid() && body.Captured? && base + capacity <= out.Length
    modifies out
    ensures BodyEncoded(p, ctx, body, out, base, capacity, status, used)
  {
    hide Wrote;
    var required;
    status, required := RecordListSize(p, RESULT_HEADER, body.captures);
    if status != Ok {
      return status, 0;
    }
    if capacity < required {
      return BufferTooSmall, 0;
    }
    if !Wireable(body.condition) {
      return ValidationFailed, 0;
    }
    ghost var before := out[..];
    var at := CapturedHeaderEncode(body, out, base);
    ghost var header :=
      CapturedHeader(body.tick, |body.captures|, body.condition, body.flags, body.problemDetail);
    status, at := RecordListEncode(body.captures, out, before, base, header, at);
    if status != Ok {
      ConfinedIn(before, out[..], base, base + required, base + capacity);
      return status, 0;
    }
    if at - base != required {
      assert false;
    }
    return Ok, at - base;
  }

  method ArbitraryDataEncode(p: Platform, ctx: Context, body: Body, out: array<byte>, base: nat, capacity: nat)
    returns (status: Status, used: nat)
    requires p.Valid() && body.Arbitrary? && base + capacity <= out.Length
    modifies out
    ensures BodyEncoded(p, ctx, body, out, base, capacity, status, used)
  {
    var size;
    status, size := BodySize(p, ctx, body);
    if status != Ok {
      return status, 0;
    }
    if capacity < size {
      return BufferTooSmall, 0;
    }
    ghost var before := out[..];
    WroteNothing(before, base);
    ghost var a, b := U32Le(body.dataId), U16Le(|body.payload|);
    var at := Append(out, before, base, [], base, U32Le(body.dataId));
    at := Append(out, before, base, [] + a, at, U16Le(|body.payload|));
    at := Append(out, before, base, [] + a + b, at, body.payload);
    assert [] + a + b + body.payload == BodyWire(body);
    return Ok, size;
  }

  method ErrorEncode(p: Platform, ctx: Context, body: Body, out: array<byte>, base: nat, capacity: nat)
    returns (status: Status, used: nat)
    requires p.Valid() && body.Error? && base + capacity <= out.Length
    modifies out
    ensures BodyEncoded(p, ctx, body, out, base, capacity, status, used)
  {
    status := ErrorStatus(ctx, body);
    if status != Ok {
      return status, 0;
    }
    var sum := CheckedAdd(p, ERROR_FIXED, |body.diagnostic|);
    if sum.None? {
      assert false;
    }
    var size := ERROR_FIXED + |body.diagnostic|;
    if capacity < size {
      return BufferTooSmall, 0;
    }
    if !Wireable(body.category) {
      assert false;
    }
    ghost var before := out[..];
    WroteNothing(before, base);
    ghost var a, b := [WireByte(body.category), body.recoverable, body.hasTick], U32Le(body.tick);
    var at := Append(out, before, base, [], base, [body.category, body.recoverable, body.hasTick]);
    at := Append(out, before, base, [] + a, at, U32Le(body.tick));
    at := Append(out, before, base, [] + a + b, at, U32Le(body.detail));
    if at - base != 11 {
      assert false;
    }
    ghost var header := ErrorHeader(body.category, body.recoverable, body.hasTick, body.tick, body.detail);
    assert [] + a + b + U32Le(body.detail) == header;
    status, at := ByteSpanEncode(p, body.diagnostic, out, capacity - 11, before, base, header, at);
    if status != Ok {
      assert false;
    }
    if at - base != size {
      assert false;
    }
    return Ok, size;
  }

  /** The code sums the two span sizes unchecked, so its callers must keep that sum within the size type. */
  method SystemInfoResponseEncode(p: Platform, ctx: Context, body: Body, out: array<byte>, base: nat, capacity: nat)
    returns (status: Status, used: nat)
    requires p.Valid() && body.SystemInfo? && |BodyWire(body)| <= p.sizeMax && base + capacity <= out.Length
    modifies out
    ensures BodyEncoded(p, ctx, body, out, base, capacity, status, used)
  {
    hide Wrote;
    if !ExactVersion(body) {
      return VersionMismatch, 0;
    }
    var size := INFO_FIXED + 2 + |body.gitHash| + |body.diagnostic|;
    if capacity < size {
      return BufferTooSmall, 0;
    }
    ghost var before := out[..];
    WroteNothing(before, base);
    ghost var header := InfoHeader(body.protocolMajor, body.protocolMinor, body.protocolPatch,
                                   body.firmwareMajor, body.firmwareMinor, body.firmwarePatch);
    var at := InfoHeaderEncode(body, out, base);
    status, at := ByteSpanEncode(p, body.diagnostic, out, base + capacity - at, before, base, header, at);
    if status != Ok {
      WroteIsConfined(before, out[..], base, header, base + capacity);
      return status, 0;
    }
    ghost var first := header + SpanWire(body.diagnostic);
    status, at := ByteSpanEncode(p, body.gitHash, out, base + capacity - at, before, base, first, at);
    if status != Ok {
      WroteIsConfined(before, out[..], base, first, base + capacity);
      return status, 0;
    }
    return Ok, at - base;
  }

  /** Six version fields, each at the running offset. */
  method InfoHeaderEncode(body: Body, out: array<byte>, base: nat) returns (at: nat)
    requires body.SystemInfo? && base + INFO_FIXED <= out.Length
    modifies out
    ensures Wrote(old(out[..]), out[..], base,
                  InfoHeader(body.protocolMajor, body.protocolMinor, body.protocolPatch,
                             body.firmwareMajor, body.firmwareMinor, body.firmwarePatch))
    ensures at == base + INFO_FIXED
  {
    ghost var before := out[..];
    WroteNothing(before, base);
    ghost var sofar := [];
    at := Append(out, before, base, sofar, base, U16Le(body.protocolMajor));
    sofar := sofar + U16Le(body.protocolMajor);
    at := Append(out, before, base, sofar, at, U16Le(body.protocolMinor));
    sofar := sofar + U16Le(body.protocolMinor);
    at := Append(out, before, base, sofar, at, U16Le(body.protocolPatch));
    sofar := sofar + U16Le(body.protocolPatch);
    at := Append(out, before, base, sofar, at, U16Le(body.firmwareMajor));
    sofar := sofar + U16Le(body.firmwareMajor);
    at := Append(out, before, base, sofar, at, U16Le(body.firmwareMinor));
    sofar := sofar + U16Le(body.firmwareMinor);
    at := Append(out, before, base, sofar, at, U16Le(body.firmwarePatch));
    sofar := sofar + U16Le(body.firmwarePatch);
    assert sofar == InfoHeader(body.protocolMajor, body.protocolMinor, body.protocolPatch,
                               body.firmwareMajor, body.firmwareMinor, body.firmwarePatch);
  }

  method BodyEncode(p: Platform, ctx: Context, body: Body, out: array<byte>, base: nat, capacity: nat)
    returns (status: Status, used: nat)
    requires p.Valid() && base + capacity <= out.Length
    requires body.SystemInfo? ==> |BodyWire(body)| <= p.sizeMax
    modifies out
    ensures BodyEncoded(p, ctx, body, out, base, capacity, status, used)
  {
    match body
    case Update(_, _, _) => status, used := UpdateInstructionEncode(p, ctx, body, out, base, capacity);
    case Captured(_, _, _, _, _) => status, used := VariableTestResultEncode(p, ctx, body, out, base, capacity);
    case Arbitrary(_, _) => status, used := ArbitraryDataEncode(p, ctx, body, out, base, capacity);
    case Error(_, _, _, _, _, _) => status, used := ErrorEncode(p, ctx, body, out, base, capacity);
    case SystemInfo(_, _, _, _, _, _, _, _) =>
      status, used := SystemInfoResponseEncode(p, ctx, body, out, base, capacity);
  }
}

/**
 The second pass: after a scan has accepted the payload, the decoder walks it again without any bounds
 checks of its own and fills the caller's storage. Every index it uses is proved in bounds here.
 */
module Decoding {
  import opened Wire
  import opened Buffers
  import opened Records
  import opened RecordScan
  import opened StorageSize
  import opened Messages
  import opened Parsing
  import opened Scanners
  import opened DecodeStorage
  import E = Encoding

  /** The storage during the second pass: a growing descriptor array and, from the pool on, growing data. */
  ghost predicate Regions(before: seq<Cell>, cells: seq<Cell>, descriptors: seq<Cell>, pool: nat, data: seq<Cell>) {
    && |descriptors| <= pool && pool + |data| <= |before| == |cells|
    && cells[..|descriptors|] == descriptors
    && cells[|descriptors|..pool] == before[|descriptors|..pool]
    && cells[pool..pool + |data|] == data
    && cells[pool + |data|..] == before[pool + |data|..]
  }

  /** A descriptor written at `slot` and then data at `at`. */
  ghost predicate StoredOne(
      before: seq<Cell>, after: seq<Cell>, slot: nat, descriptor: seq<Cell>, at: nat, data: seq<Cell>)
  {
    exists middle :: Wrote(before, middle, slot, descriptor) && Wrote(middle, after, at, data)
  }

  lemma {:induction false} DataSplit(records: seq<Record>, i: nat)
    requires i < |records|
    ensures Data(records[..i + 1]) == Data(records[..i]) + records[i].data
    ensures |Data(records[..i + 1])| <= |Data(records)|
    decreases |records| - i
  {
    assert records[..i] + [records[i]] == records[..i + 1];
    DataSnoc(records[..i], records[i]);
    if i + 1 == |records| {
      assert records[..i + 1] == records;
    } else {
      DataSplit(records, i + 1);
    }
  }

  lemma SlotFits(i: nat, count: nat, size: nat)
    requires i < count
    ensures i * size + size == (i + 1) * size <= count * size
  {
    assert (i + 1) * size <= count * size;
  }

  /** The two growing regions of the storage do not disturb each other. */
  lemma RegionsGrow(
      before: seq<Cell>, cells: seq<Cell>, after: seq<Cell>, descriptors: seq<Cell>, one: seq<Cell>, pool: nat,
      data: seq<Cell>, more: seq<Cell>)
    requires Regions(before, cells, descriptors, pool, data)
    requires |descriptors| + |one| <= pool && pool + |data| + |more| <= |before|
    requires StoredOne(cells, after, |descriptors|, one, pool + |data|, more)
    ensures Regions(before, after, descriptors + one, pool, data + more)
  {
    var slots, at := |descriptors|, pool + |data|;
    var middle :| Wrote(cells, middle, slots, one) && Wrote(middle, after, at, more);
    forall k | 0 <= k < |after|
      ensures after[k] == if slots <= k < slots + |one| then one[k - slots]
                          else if at <= k < at + |more| then more[k - at]
                          else cells[k]
    {
      WroteCell(cells, middle, slots, one, k);
      WroteCell(middle, after, at, more, k);
    }
    forall k | 0 <= k < |cells|
      ensures (k < slots ==> cells[k] == descriptors[k]) && (pool <= k < at ==> cells[k] == data[k - pool])
      ensures slots <= k < pool || k >= at ==> cells[k] == before[k]
    {
      if k < slots {
        assert cells[k] == cells[..slots][k];
      } else if k < pool {
        assert cells[k] == cells[slots..pool][k - slots] == before[slots..pool][k - slots];
      } else if pool <= k < at {
        assert cells[k] == cells[pool..at][k - pool];
      } else if k >= at {
        assert cells[k] == cells[at..][k - at];
      }
    }
  }

  /** One turn of the decode loop: read a record header, store a descriptor, copy the data. No bounds checks. */
  method RecordDecode(
      payload: seq<byte>, start: nat, size: nat, slot: nat, at: nat, storage: array<Cell>, ghost r: Record)
    returns (running: nat, length: nat)
    requires 0 <= r.peripheral < 256
    requires start + |RecordWire(r)| <= |payload| && Spells(payload, start, r, start + |RecordWire(r)|)
    requires slot + size <= at && at + |r.data| <= storage.Length
    modifies storage
    ensures running == start + |RecordWire(r)| && length == |r.data|
    ensures StoredOne(old(storage[..]), storage[..], slot, DescriptorCells(DescriptorOf(r, at), size), at,
                      RawCells(r.data))
  {
    FieldsOfSpelled(payload, start, r, start + |RecordWire(r)|);
    running := start;
    var peripheral := payload[running];
    running := running + 1;
    var channel := payload[running];
    running := running + 1;
    length := ReadU16(payload, running);
    running := running + 2;
    var d := Descriptor(peripheral, channel, length, at);
    Copy(storage, slot, DescriptorCells(d, size));
    ghost var middle := storage[..];
    Copy(storage, at, RawCells(payload[running..running + length]));
    assert Wrote(old(storage[..]), middle, slot, DescriptorCells(d, size));
    running := running + length;
    running := running + Pad4(length);
  }

  /** What the loop of the second pass keeps, besides the storage. */
  ghost predicate HalfRead(payload: seq<byte>, running: nat, records: seq<Record>, i: nat) {
    i <= |records| && running <= |payload| && payload[running..] == RecordsWire(records[i..])
  }

  ghost predicate HalfStored(
      before: seq<Cell>, cells: seq<Cell>, size: nat, pool: nat, records: seq<Record>, i: nat)
  {
    && i <= |records|
    && Regions(before, cells, Descriptors(size, records[..i], pool), pool, RawCells(Data(records[..i])))
  }

  /** The decode loop shared in form by the two record families. */
  method PoolDecode(
      payload: seq<byte>, start: nat, count: nat, size: nat, pool: nat, storage: array<Cell>,
      ghost records: seq<Record>)
    returns (running: nat, copied: nat)
    requires |records| == count && HalfRead(payload, start, records, 0)
    requires forall i :: 0 <= i < count ==> 0 <= records[i].peripheral < 256
    requires |Descriptors(size, records, pool)| <= pool && pool + |Data(records)| <= storage.Length
    modifies storage
    ensures running == |payload| && copied == |Data(records)|
    ensures Regions(old(storage[..]), storage[..], Descriptors(size, records, pool), pool, RawCells(Data(records)))
  {
    hide HalfStored;
    hide HalfRead;
    running := start;
    var slot := 0;
    copied := 0;
    ghost var before := storage[..];
    StartStored(before, size, pool, records);
    var i := 0;
    while i < count
      invariant 0 <= i <= count
      invariant slot == |Descriptors(size, records[..i], pool)| && copied == |Data(records[..i])|
      invariant HalfRead(payload, running, records, i)
      invariant HalfStored(before, storage[..], size, pool, records, i)
    {
      ghost var cells := storage[..];
      StepFits(size, records, i, pool);
      NextRecord(payload, running, records, i);
      var length;
      running, length := RecordDecode(payload, running, size, slot, pool + copied, storage, records[i]);
      StepStored(before, cells, storage[..], size, pool, records, i);
      copied := copied + length;
      slot := slot + size;
      i := i + 1;
    }
    EndStored(before, storage[..], size, pool, records, payload, running);
  }

  lemma StartStored(before: seq<Cell>, size: nat, pool: nat, records: seq<Record>)
    requires pool <= |before|
    ensures HalfStored(before, before, size, pool, records, 0)
    ensures Descriptors(size, records[..0], pool) == [] && Data(records[..0]) == []
  {
  }

  lemma EndStored(
      before: seq<Cell>, cells: seq<Cell>, size: nat, pool: nat, records: seq<Record>, payload: seq<byte>, running: nat)
    requires HalfStored(before, cells, size, pool, records, |records|) && HalfRead(payload, running, records, |records|)
    ensures Regions(before, cells, Descriptors(size, records, pool), pool, RawCells(Data(records)))
    ensures running == |payload| && records[..|records|] == records
  {
    assert records[..|records|] == records && records[|records|..] == [];
  }

  /** The finished regions are the stored list; the alignment gap and what lies behind the data are as before. */
  lemma RegionsAreList(p: Platform, kind: Kind, records: seq<Record>, before: seq<Cell>, cells: seq<Cell>)
    requires p.Valid()
    requires var size, pool := DescriptorSize(p, kind), PoolOffset(p, kind, |records|);
             Regions(before, cells, Descriptors(size, records, pool), pool, RawCells(Data(records)))
    ensures var arrayEnd, pool := |records| * DescriptorSize(p, kind), PoolOffset(p, kind, |records|);
            && ListStored(p, kind, records, cells)
            && arrayEnd <= pool && pool + |Data(records)| <= |before| == |cells|
            && cells[arrayEnd..pool] == before[arrayEnd..pool]
            && cells[pool + |Data(records)|..] == before[pool + |Data(records)|..]
  {
    hide Descriptors;
    hide Data;
    hide RoundUp;
  }

  /**
   The second pass over a scanned record list. It reads only inside the payload, writes only inside the
   storage the scan asked for, and ends exactly at the end of the payload.
   */
  method RecordListDecode(
      p: Platform, kind: Kind, payload: seq<byte>, start: nat, count: nat, storage: array<Cell>,
      ghost records: seq<Record>)
    returns (running: nat, used: nat)
    requires p.Valid() && start <= |payload| && payload[start..] == RecordsWire(records) && |records| == count != 0
    requires forall i :: 0 <= i < count ==> 0 <= records[i].peripheral < 256
    requires StorageNeeded(p, kind, records) <= storage.Length && StorageNeeded(p, kind, records) <= p.sizeMax
    modifies storage
    ensures running == |payload| && used == StorageNeeded(p, kind, records)
    ensures ListStored(p, kind, records, storage[..])
    ensures var arrayEnd, pool := count * DescriptorSize(p, kind), PoolOffset(p, kind, count);
            storage[arrayEnd..pool] == old(storage[arrayEnd..pool])
    ensures storage[used..] == old(storage[used..])
  {
    hide Regions;
    hide ListStored;
    hide Descriptors;
    var size := DescriptorSize(p, kind);
    RoundUpIsLeastMultiple(count * size, p.alignment);
    AlignUpIsRoundUp(p, count * size, p.alignment);
    var pool := AlignUp(p, count * size, p.alignment);
    if pool.None? {
      assert false;
    } else {
      assert records[0..] == records;
      var copied;
      ghost var before := storage[..];
      running, copied := PoolDecode(payload, start, count, size, pool.value, storage, records);
      used := pool.value + copied;
      RegionsAreList(p, kind, records, before, storage[..]);
    }
  }

  /** There is room for the next descriptor and the next data. */
  lemma StepFits(size: nat, records: seq<Record>, i: nat, pool: nat)
    requires i < |records|
    ensures |Descriptors(size, records[..i], pool)| + size == |Descriptors(size, records[..i + 1], pool)|
            <= |Descriptors(size, records, pool)|
    ensures |Data(records[..i])| + |records[i].data| == |Data(records[..i + 1])| <= |Data(records)|
  {
    SlotFits(i, |records|, size);
    DataSplit(records, i);
  }

  /** Storing one more record. */
  lemma StepStored(
      before: seq<Cell>, cells: seq<Cell>, after: seq<Cell>, size: nat, pool: nat, records: seq<Record>, i: nat)
    requires i < |records| && HalfStored(before, cells, size, pool, records, i)
    requires |Descriptors(size, records, pool)| <= pool && pool + |Data(records)| <= |before|
    requires var at := pool + |Data(records[..i])|;
             StoredOne(cells, after, |Descriptors(size, records[..i], pool)|,
                       DescriptorCells(DescriptorOf(records[i], at), size), at, RawCells(records[i].data))
    ensures HalfStored(before, after, size, pool, records, i + 1)
  {
    var descriptors, data := Descriptors(size, records[..i], pool), Data(records[..i]);
    var one := DescriptorCells(DescriptorOf(records[i], pool + |data|), size);
    StepFits(size, records, i, pool);
    DescriptorsSnoc(size, records[..i], records[i], pool);
    assert records[..i] + [records[i]] == records[..i + 1];
    DataSplit(records, i);
    RawCellsConcat(data, records[i].data);
    RegionsGrow(before, cells, after, descriptors, one, pool, RawCells(data), RawCells(records[i].data));
  }

  /** What the second pass finds at the start of the remaining records. */
  lemma NextRecord(payload: seq<byte>, at: nat, records: seq<Record>, i: nat)
    requires i < |records| && HalfRead(payload, at, records, i)
    ensures var next := at + |RecordWire(records[i])|;
            next <= |payload| && Spells(payload, at, records[i], next) && HalfRead(payload, next, records, i + 1)
  {
    var r, n := records[i], |RecordWire(records[i])|;
    assert records[i..][0] == r && records[i..][1..] == records[i + 1..];
    assert payload[at..] == RecordWire(r) + RecordsWire(records[i + 1..]);
    assert payload[at..at + n] == payload[at..][..n] && payload[at + n..] == payload[at..][n..];
  }

  lemma {:induction false} ScannedRecordsAreWireable(ctx: Context, kind: Kind, records: seq<Record>)
    requires ListVerdict(ctx, kind, records, {}) == Ok
    ensures forall i :: 0 <= i < |records| ==> 0 <= records[i].peripheral < 256
  {
    forall i | 0 <= i < |records|
      ensures 0 <= records[i].peripheral < 256
    {
      E.AcceptedRecordIsWireable(ctx, kind, records, {}, i);
    }
  }

  // ---------------------------------------------------------------------------
  // Body decoders
  // ---------------------------------------------------------------------------

  datatype BodyResult = BodyResult(status: Status, native: Option<Native>, consumed: nat, used: nat)

  function Refusal(status: Status): BodyResult {
    BodyResult(status, None, 0, 0)
  }

  /**
   The contract of every body decoder: the scan's verdict; then, if the storage is large enough, the native
   structure and the storage of exactly the scanned body, the whole payload consumed, the reported storage
   used and nothing beyond it touched. A refusal touches no storage.
   */
  twostate predicate BodyDecoded(
      p: Platform, parsed: Parsed, payload: seq<byte>, storage: array<Cell>, result: BodyResult)
    requires p.Valid()
    reads storage
  {
    match parsed
    case Unmodelled => false
    case Unparsed(status) => result == Refusal(status) && storage[..] == old(storage[..])
    case Parsed(body) =>
      if BodyStorage(p, body) > storage.Length then
        result == Refusal(BufferTooSmall) && storage[..] == old(storage[..])
      else
        && result == BodyResult(Ok, Some(NativeOf(body)), |payload|, BodyStorage(p, body))
        && Stored(p, body, storage[..])
        && storage[BodyStorage(p, body)..] == old(storage[BodyStorage(p, body)..])
  }

  method UpdateInstructionDecode(p: Platform, ctx: Context, payload: seq<byte>, storage: array<Cell>)
    returns (result: BodyResult)
    requires p.Valid() && |payload| <= 0xFFFF
    modifies storage
    ensures BodyDecoded(p, ParseUpdate(p, ctx, payload), payload, storage, result)
  {
    var status, required := UpdateInstructionScan(p, ctx, payload);
    if status != Ok {
      return Refusal(status);
    }
    if required > storage.Length {
      return Refusal(BufferTooSmall);
    }
    ghost var body := ParseUpdate(p, ctx, payload).body;
    ParseUpdateExact(p, ctx, body.tick, body.flags, body.operations, payload);
    ScannedRecordsAreWireable(ctx, Operations, body.operations);
    AcceptedExactlyWhenSerialised(ctx, Operations, payload, UPDATE_HEADER, payload[4] as int, body.operations);
    var tick, count, flags := ReadU32(payload, 0), payload[4], payload[5];
    var running, used :=
      RecordListDecode(p, Operations, payload, UPDATE_HEADER, count as int, storage, body.operations);
    if running != |payload| {
      assert false;
    }
    return BodyResult(Ok, Some(NativeUpdate(tick, flags, count, Some(0))), running, used);
  }

  method VariableTestResultDecode(p: Platform, ctx: Context, payload: seq<byte>, storage: array<Cell>)
    returns (result: BodyResult)
    requires p.Valid() && |payload| <= 0xFFFF
    modifies storage
    ensures BodyDecoded(p, ParseCaptured(p, ctx, payload), payload, storage, result)
  {
    var status, required := VariableTestResultScan(p, ctx, payload);
    if status != Ok {
      return Refusal(status);
    }
    if required > storage.Length {
      return Refusal(BufferTooSmall);
    }
    var tick, count, condition := ReadU32(payload, 0), payload[4], payload[5];
    var flags, detail := payload[6], ReadU32(payload, 8);
    if count == 0 {
      return BodyResult(Ok, Some(NativeCaptured(tick, condition, flags, detail, count, None)), RESULT_HEADER, 0);
    }
    ghost var body := ParseCaptured(p, ctx, payload).body;
    ParseCapturedExact(p, ctx, body.tick, body.condition, body.flags, body.problemDetail, body.captures, payload);
    ScannedRecordsAreWireable(ctx, Captures, body.captures);
    AcceptedExactlyWhenSerialised(ctx, Captures, payload, RESULT_HEADER, payload[4] as int, body.captures);
    var running, used := RecordListDecode(p, Captures, payload, RESULT_HEADER, count as int, storage, body.captures);
    if running != |payload| {
      assert false;
    }
    return BodyResult(Ok, Some(NativeCaptured(tick, condition, flags, detail, count, Some(0))), running, used);
  }

  method ArbitraryDataDecode(p: Platform, ctx: Context, payload: seq<byte>, storage: array<Cell>)
    returns (result: BodyResult)
    requires p.Valid() && |payload| <= 0xFFFF
    modifies storage
    ensures BodyDecoded(p, ParseArbitrary(ctx, payload), payload, storage, result)
  {
    var status, required := ArbitraryDataScan(p, ctx, payload);
    if status != Ok {
      return Refusal(status);
    }
    if required > storage.Length {
      return Refusal(BufferTooSmall);
    }
    if required != 0 {
      Copy(storage, 0, RawCells(payload[ARBITRARY_PREFIX..ARBITRARY_PREFIX + required]));
    }
    assert payload[ARBITRARY_PREFIX..ARBITRARY_PREFIX + required] == payload[ARBITRARY_PREFIX..];
    var native := NativeArbitrary(ReadU32(payload, 0), NativeSpan(required, if required == 0 then None else Some(0)));
    return BodyResult(Ok, Some(native), |payload|, required);
  }

  datatype SpanResult = SpanResult(status: Status, span: NativeSpan, encoded: nat, decoded: nat)

  /** One length byte and its data, copied to `dest`. The encoded span is checked before the destination. */
  method ByteSpanDecode(p: Platform, payload: seq<byte>, storage: array<Cell>, dest: nat) returns (result: SpanResult)
    requires p.Valid() && dest <= storage.Length
    modifies storage
    ensures result.status == if |payload| < 1 || |payload| < 1 + payload[0] as int then MalformedMessage
                             else if payload[0] as int > storage.Length - dest then BufferTooSmall
                             else Ok
    ensures result.status != Ok ==> storage[..] == old(storage[..]) && result.encoded == 0 && result.decoded == 0
    ensures result.status == Ok ==>
              && result == SpanResult(Ok, SpanAt(payload[0], dest), 1 + payload[0] as int, payload[0] as int)
              && Wrote(old(storage[..]), storage[..], dest, RawCells(payload[1..1 + payload[0] as int]))
  {
    var none := NativeSpan(0, None);
    if |payload| < 1 {
      return SpanResult(MalformedMessage, none, 0, 0);
    }
    var size := payload[0] as int;
    var required := CheckedAdd(p, 1, size);
    if required.None? {
      assert false;
    } else {
      if |payload| < required.value {
        return SpanResult(MalformedMessage, none, 0, 0);
      }
      if size > storage.Length - dest {
        return SpanResult(BufferTooSmall, none, 0, 0);
      }
      if size != 0 {
        Copy(storage, dest, RawCells(payload[1..1 + size]));
      } else {
        WroteNothing(storage[..], dest);
      }
      return SpanResult(Ok, NativeSpan(size, if size == 0 then None else Some(dest)), required.value, size);
    }
  }

  method ErrorDecode(p: Platform, ctx: Context, payload: seq<byte>, storage: array<Cell>) returns (result: BodyResult)
    requires p.Valid()
    modifies storage
    ensures BodyDecoded(p, ParseError(ctx, payload), payload, storage, result)
  {
    var status, required := ErrorScan(p, ctx, payload);
    if status != Ok {
      return Refusal(status);
    }
    if required > storage.Length {
      return Refusal(BufferTooSmall);
    }
    var running := 3;
    var tick := ReadU32(payload, running);
    running := running + 4;
    var detail := ReadU32(payload, running);
    running := running + 4;
    if running != 11 {
      assert false;
    }
    var span := ByteSpanDecode(p, payload[running..], storage, 0);
    if span.status != Ok {
      assert false;
    }
    if running + span.encoded != |payload| {
      assert false;
    }
    assert payload[11..][1..1 + required] == payload[ERROR_FIXED..];
    var native := NativeError(payload[0], payload[1], payload[2], tick, detail, span.span);
    return BodyResult(Ok, Some(native), |payload|, span.decoded);
  }

  /** Two spans decoded one after the other fill the storage with both. */
  lemma TwoSpansStored(before: seq<Cell>, middle: seq<Cell>, after: seq<Cell>, one: seq<byte>, two: seq<byte>)
    requires Wrote(before, middle, 0, RawCells(one)) && Wrote(middle, after, |one|, RawCells(two))
    ensures SpanStored(one + two, after) && after[|one| + |two|..] == before[|one| + |two|..]
  {
    WroteThen(before, middle, after, 0, RawCells(one), RawCells(two));
    RawCellsConcat(one, two);
  }

  /** An encoded byte span, and perhaps more behind it. */
  ghost predicate SpanAtFront(payload: seq<byte>, span: seq<byte>) {
    1 + |span| <= |payload| && payload[0] as int == |span| && payload[1..1 + |span|] == span
  }

  /** Where the two encoded spans of a scanned discovery response are, and its version fields. */
  lemma SpansOfInfo(ctx: Context, payload: seq<byte>)
    requires ParseInfo(ctx, payload).Parsed?
    ensures var body := ParseInfo(ctx, payload).body;
            && body.SystemInfo? && |payload| >= INFO_FIXED + 2
            && body == SystemInfo(ReadU16(payload, 0), ReadU16(payload, 2), ReadU16(payload, 4), ReadU16(payload, 6),
                                  ReadU16(payload, 8), ReadU16(payload, 10), body.diagnostic, body.gitHash)
            && SpanAtFront(payload[INFO_FIXED..], body.diagnostic)
            && var middle := INFO_FIXED + 1 + |body.diagnostic|;
               && middle < |payload| && SpanAtFront(payload[middle..], body.gitHash)
               && |payload| == middle + 1 + |body.gitHash|
  {
    var body := ParseInfo(ctx, payload).body;
    var middle := INFO_FIXED + 1 + |body.diagnostic|;
    assert payload[INFO_FIXED..][1..1 + |body.diagnostic|] == payload[INFO_FIXED + 1..middle];
    assert payload[middle..][1..1 + |body.gitHash|] == payload[middle + 1..];
  }

  /** The two span decodes of a discovery response, each at the running offsets the one before it left. */
  method SpanPairDecode(
      p: Platform, payload: seq<byte>, start: nat, storage: array<Cell>, ghost one: seq<byte>, ghost two: seq<byte>)
    returns (first: SpanResult, second: SpanResult)
    requires p.Valid() && |one| <= 255 && |two| <= 255 && |one| + |two| <= storage.Length
    requires start + 1 + |one| <= |payload|
    requires SpanAtFront(payload[start..], one) && SpanAtFront(payload[start + 1 + |one|..], two)
    modifies storage
    ensures first == SpanResult(Ok, SpanAt(|one|, 0), 1 + |one|, |one|)
    ensures second == SpanResult(Ok, SpanAt(|two|, |one|), 1 + |two|, |two|)
    ensures SpanStored(one + two, storage[..]) && storage[|one| + |two|..] == old(storage[|one| + |two|..])
  {
    second := SpanResult(Ok, NativeSpan(0, None), 0, 0);
    ghost var before := storage[..];
    var running := start;
    first := ByteSpanDecode(p, payload[running..], storage, 0);
    if first.status != Ok {
      assert false;
    }
    ghost var middle := storage[..];
    running := running + first.encoded;
    second := ByteSpanDecode(p, payload[running..], storage, first.decoded);
    if second.status != Ok {
      assert false;
    }
    TwoSpansStored(before, middle, storage[..], one, two);
  }

  method SystemInfoResponseDecode(p: Platform, ctx: Context, payload: seq<byte>, storage: array<Cell>)
    returns (result: BodyResult)
    requires p.Valid()
    modifies storage
    ensures BodyDecoded(p, ParseInfo(ctx, payload), payload, storage, result)
  {
    var status, required := SystemInfoResponseScan(p, ctx, payload);
    if status != Ok {
      return Refusal(status);
    }
    if required > storage.Length {
      return Refusal(BufferTooSmall);
    }
    ghost var body := ParseInfo(ctx, payload).body;
    SpansOfInfo(ctx, payload);
    hide ParseInfo;
    var first, second := SpanPairDecode(p, payload, INFO_FIXED, storage, body.diagnostic, body.gitHash);
    if first.status != Ok || second.status != Ok {
      assert false;
    }
    var running := INFO_FIXED + first.encoded + second.encoded;
    var native := NativeInfo(ReadU16(payload, 0), ReadU16(payload, 2), ReadU16(payload, 4), ReadU16(payload, 6),
                             ReadU16(payload, 8), ReadU16(payload, 10), first.span, second.span);
    return BodyResult(Ok, Some(native), running, first.decoded + second.decoded);
  }

  /** The body decoders, by message type. */
  method BodyDecode(p: Platform, ctx: Context, messageType: byte, payload: seq<byte>, storage: array<Cell>)
    returns (modelled: bool, result: BodyResult)
    requires p.Valid() && |payload| <= 0xFFFF
    modifies storage
    ensures modelled <==> !ParseBody(p, ctx, messageType, payload).Unmodelled?
    ensures modelled ==> BodyDecoded(p, ParseBody(p, ctx, messageType, payload), payload, storage, result)
    ensures !modelled ==> storage[..] == old(storage[..])
  {
    modelled, result := true, Refusal(Ok);
    if messageType == SYSTEM_INFO_RESPONSE {
      result := SystemInfoResponseDecode(p, ctx, payload, storage);
    } else if messageType == UPDATE_INSTRUCTION {
      result := UpdateInstructionDecode(p, ctx, payload, storage);
    } else if messageType == VARIABLE_TEST_RESULT {
      result := VariableTestResultDecode(p, ctx, payload, storage);
    } else if messageType == ERROR_MESSAGE {
      result := ErrorDecode(p, ctx, payload, storage);
    } else if messageType == ARBITRARY_DATA {
      result := ArbitraryDataDecode(p, ctx, payload, storage);
    } else {
      modelled := false;
    }
  }
}

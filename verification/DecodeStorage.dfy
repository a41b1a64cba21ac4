/**
 Caller-owned decode storage. Native descriptors overlay the start of the buffer and point into it, so a
 storage cell is either a raw byte or one part of a descriptor object, and a pointer is an offset.
 */
module DecodeStorage {
  import opened Sequences
  import opened Wire
  import opened Records
  import opened RecordScan
  import opened StorageSize
  import opened Messages

  /** A native logical operation or captured record; `data` is where its span points. */
  datatype Descriptor = Descriptor(peripheral: int, channel: byte, size: u16, data: nat)

  datatype Cell = Raw(value: byte) | Part(descriptor: Descriptor, index: nat)

  function DescriptorCells(d: Descriptor, size: nat): (cells: seq<Cell>)
    ensures |cells| == size
  {
    seq(size, k requires 0 <= k < size => Part(d, k))
  }

  function RawCells(bytes: seq<byte>): (cells: seq<Cell>)
    ensures |cells| == |bytes|
    ensures forall i :: 0 <= i < |bytes| ==> cells[i] == Raw(bytes[i])
  {
    seq(|bytes|, i requires 0 <= i < |bytes| => Raw(bytes[i]))
  }

  function DescriptorOf(r: Record, data: nat): Descriptor {
    Descriptor(r.peripheral, r.channel, |r.data|, data)
  }

  /** The descriptor array for a record list whose data starts at `data`, each span right after the last. */
  function Descriptors(size: nat, records: seq<Record>, data: nat): (cells: seq<Cell>)
    ensures |cells| == |records| * size
    decreases |records|
  {
    if records == [] then []
    else
      assert |records| * size == size + (|records| - 1) * size;
      DescriptorCells(DescriptorOf(records[0], data), size) + Descriptors(size, records[1..], data + |records[0].data|)
  }

  lemma {:induction false} DescriptorsSnoc(size: nat, records: seq<Record>, r: Record, data: nat)
    ensures Descriptors(size, records + [r], data)
         == Descriptors(size, records, data) + DescriptorCells(DescriptorOf(r, data + |Data(records)|), size)
    decreases |records|
  {
    if records == [] {
      assert ([] + [r])[1..] == [];
    } else {
      assert (records + [r])[1..] == records[1..] + [r];
      DescriptorsSnoc(size, records[1..], r, data + |records[0].data|);
    }
  }

  /** A decoded record list: descriptors from the start, then from the pool offset on the data back to back. */
  ghost predicate ListStored(p: Platform, kind: Kind, records: seq<Record>, cells: seq<Cell>)
    requires p.Valid()
  {
    var size, pool := DescriptorSize(p, kind), PoolOffset(p, kind, |records|);
    records != [] ==>
      && |records| * size <= pool && pool + |Data(records)| <= |cells|
      && cells[..|records| * size] == Descriptors(size, records, pool)
      && cells[pool..pool + |Data(records)|] == RawCells(Data(records))
  }

  ghost predicate SpanStored(span: seq<byte>, cells: seq<Cell>) {
    |span| <= |cells| && cells[..|span|] == RawCells(span)
  }

  ghost predicate Stored(p: Platform, body: Body, cells: seq<Cell>)
    requires p.Valid()
  {
    match body
    case Update(_, _, operations) => ListStored(p, Operations, operations, cells)
    case Captured(_, _, _, _, captures) => ListStored(p, Captures, captures, cells)
    case Arbitrary(_, payload) => SpanStored(payload, cells)
    case Error(_, _, _, _, _, diagnostic) => SpanStored(diagnostic, cells)
    case SystemInfo(_, _, _, _, _, _, diagnostic, gitHash) => SpanStored(diagnostic + gitHash, cells)
  }

  // ---------------------------------------------------------------------------
  // Native bodies and what they mean
  // ---------------------------------------------------------------------------

  datatype NativeSpan = NativeSpan(size: u16, data: Option<nat>)

  datatype Native =
    | NativeUpdate(tick: u32, flags: byte, count: byte, operations: Option<nat>)
    | NativeCaptured(tick: u32, condition: int, flags: byte, problemDetail: u32, count: byte, records: Option<nat>)
    | NativeArbitrary(dataId: u32, payload: NativeSpan)
    | NativeError(category: int, recoverable: byte, hasTick: byte, tick: u32, detail: u32, diagnostic: NativeSpan)
    | NativeInfo(
        protocolMajor: u16, protocolMinor: u16, protocolPatch: u16,
        firmwareMajor: u16, firmwareMinor: u16, firmwarePatch: u16, diagnostic: NativeSpan, gitHash: NativeSpan)

  /** An empty span has no pointer. */
  function SpanAt(size: u16, at: nat): NativeSpan {
    NativeSpan(size, if size == 0 then None else Some(at))
  }

  /** The native structure the decoder fills, with pointers as offsets into the storage. */
  function NativeOf(body: Body): Native {
    match body
    case Update(tick, flags, operations) => NativeUpdate(tick, flags, |operations|, Some(0))
    case Captured(tick, condition, flags, detail, captures) =>
      NativeCaptured(tick, condition, flags, detail, |captures|, if captures == [] then None else Some(0))
    case Arbitrary(dataId, payload) => NativeArbitrary(dataId, SpanAt(|payload|, 0))
    case Error(category, recoverable, hasTick, tick, detail, diagnostic) =>
      NativeError(category, recoverable, hasTick, tick, detail, SpanAt(|diagnostic|, 0))
    case SystemInfo(a, b, c, d, e, f, diagnostic, gitHash) =>
      NativeInfo(a, b, c, d, e, f, SpanAt(|diagnostic|, 0), SpanAt(|gitHash|, |diagnostic|))
  }

  predicate AllRaw(cells: seq<Cell>) {
    forall i | 0 <= i < |cells| :: cells[i].Raw?
  }

  function Bytes(cells: seq<Cell>): (bytes: seq<byte>)
    requires AllRaw(cells)
    ensures |bytes| == |cells|
  {
    seq(|cells|, i requires 0 <= i < |cells| => cells[i].value)
  }

  /** Follow a pointer to `n` bytes. */
  function BytesAt(cells: seq<Cell>, at: nat, n: nat): Option<seq<byte>> {
    if at + n <= |cells| && AllRaw(cells[at..at + n]) then Some(Bytes(cells[at..at + n])) else None
  }

  /** Read a descriptor object; all of its parts must be there. */
  function DescriptorAt(cells: seq<Cell>, at: nat, size: nat): Option<Descriptor> {
    if size > 0 && at + size <= |cells| && cells[at].Part?
       && cells[at..at + size] == DescriptorCells(cells[at].descriptor, size)
    then Some(cells[at].descriptor) else None
  }

  function RecordAt(cells: seq<Cell>, at: nat, size: nat): Option<Record> {
    match DescriptorAt(cells, at, size)
    case None => None
    case Some(d) =>
      match BytesAt(cells, d.data, d.size)
      case None => None
      case Some(data) => Some(Record(d.peripheral, d.channel, data))
  }

  function RecordsAt(cells: seq<Cell>, at: nat, size: nat, count: nat): (records: Option<seq<Record>>)
    ensures records.Some? ==> |records.value| == count
    decreases count
  {
    if count == 0 then Some([])
    else
      match RecordAt(cells, at, size)
      case None => None
      case Some(r) =>
        match RecordsAt(cells, at + size, size, count - 1)
        case None => None
        case Some(rest) => Some([r] + rest)
  }

  function RecordsThrough(p: Platform, kind: Kind, cells: seq<Cell>, pointer: Option<nat>, count: byte):
    (records: Option<RecordList>)
  {
    match pointer
    case None => if count == 0 then Some([]) else None
    case Some(at) =>
      match RecordsAt(cells, at, DescriptorSize(p, kind), count)
      case None => None
      case Some(records) => Some(records)
  }

  function SpanThrough(cells: seq<Cell>, span: NativeSpan): Option<Span> {
    match span.data
    case None => if span.size == 0 then Some([]) else None
    case Some(at) =>
      match BytesAt(cells, at, span.size)
      case None => None
      case Some(bytes) => Some(bytes)
  }

  /** The typed body a reader of the native structure sees through its pointers. */
  function View(p: Platform, cells: seq<Cell>, native: Native): Option<Body> {
    match native
    case NativeUpdate(tick, flags, count, operations) =>
      (match RecordsThrough(p, Operations, cells, operations, count)
       case None => None
       case Some(records) => Some(Update(tick, flags, records)))
    case NativeCaptured(tick, condition, flags, detail, count, pointer) =>
      (match RecordsThrough(p, Captures, cells, pointer, count)
       case None => None
       case Some(records) => Some(Captured(tick, condition, flags, detail, records)))
    case NativeArbitrary(dataId, payload) =>
      (match SpanThrough(cells, payload)
       case None => None
       case Some(bytes) => Some(Arbitrary(dataId, bytes)))
    case NativeError(category, recoverable, hasTick, tick, detail, diagnostic) =>
      (match SpanThrough(cells, diagnostic)
       case None => None
       case Some(bytes) => Some(Error(category, recoverable, hasTick, tick, detail, bytes)))
    case NativeInfo(a, b, c, d, e, f, diagnostic, gitHash) =>
      (match SpanThrough(cells, diagnostic)
       case None => None
       case Some(text) =>
         match SpanThrough(cells, gitHash)
         case None => None
         case Some(hash) => Some(SystemInfo(a, b, c, d, e, f, text, hash)))
  }

  // ---------------------------------------------------------------------------
  // Stored bodies read back
  // ---------------------------------------------------------------------------

  lemma RawCellsReadBack(cells: seq<Cell>, at: nat, bytes: seq<byte>)
    requires at + |bytes| <= |cells| && cells[at..at + |bytes|] == RawCells(bytes)
    ensures BytesAt(cells, at, |bytes|) == Some(bytes)
  {
    assert Bytes(RawCells(bytes)) == bytes;
  }

  lemma DescriptorReadsBack(cells: seq<Cell>, at: nat, d: Descriptor, size: nat)
    requires size > 0 && at + size <= |cells| && cells[at..at + size] == DescriptorCells(d, size)
    ensures DescriptorAt(cells, at, size) == Some(d)
  {
    assert cells[at] == cells[at..at + size][0] == Part(d, 0);
  }

  lemma RawCellsConcat(one: seq<byte>, two: seq<byte>)
    ensures RawCells(one) + RawCells(two) == RawCells(one + two)
  {
  }

  /** The first descriptor of a stored array, and the array of the rest. */
  lemma ArrayHead(cells: seq<Cell>, at: nat, size: nat, records: seq<Record>, data: nat)
    requires records != [] && at + |records| * size <= |cells|
    requires cells[at..at + |records| * size] == Descriptors(size, records, data)
    ensures (|records| - 1) * size + size == |records| * size
    ensures cells[at..at + size] == DescriptorCells(DescriptorOf(records[0], data), size)
    ensures cells[at + size..at + size + (|records| - 1) * size]
         == Descriptors(size, records[1..], data + |records[0].data|)
  {
    SplitRun(cells, at, DescriptorCells(DescriptorOf(records[0], data), size),
                Descriptors(size, records[1..], data + |records[0].data|));
  }

  /** The data of the first record in a stored pool, and the pool of the rest. */
  lemma PoolHead(cells: seq<Cell>, data: nat, records: seq<Record>)
    requires records != [] && data + |Data(records)| <= |cells|
    requires cells[data..data + |Data(records)|] == RawCells(Data(records))
    ensures var next := data + |records[0].data|;
            && data + |Data(records)| == next + |Data(records[1..])|
            && cells[data..next] == RawCells(records[0].data)
            && cells[next..next + |Data(records[1..])|] == RawCells(Data(records[1..]))
  {
    hide RawCells;
    RawCellsConcat(records[0].data, Data(records[1..]));
    SplitRun(cells, data, RawCells(records[0].data), RawCells(Data(records[1..])));
  }

  /** A descriptor array and its pool, wherever they are in the storage, read back as the records. */
  lemma {:induction false} ListReadsBack(cells: seq<Cell>, at: nat, size: nat, records: seq<Record>, data: nat)
    requires size > 0
    requires at + |records| * size <= |cells| && data + |Data(records)| <= |cells|
    requires cells[at..at + |records| * size] == Descriptors(size, records, data)
    requires cells[data..data + |Data(records)|] == RawCells(Data(records))
    ensures RecordsAt(cells, at, size, |records|) == Some(records)
    decreases |records|
  {
    if records == [] {
    } else {
      var r, rest := records[0], records[1..];
      ArrayHead(cells, at, size, records, data);
      PoolHead(cells, data, records);
      ListReadsBack(cells, at + size, size, rest, data + |r.data|);
      RecordReadsBack(cells, at, size, r, data);
      assert [r] + rest == records;
    }
  }

  lemma RecordReadsBack(cells: seq<Cell>, at: nat, size: nat, r: Record, data: nat)
    requires size > 0 && at + size <= |cells| && data + |r.data| <= |cells|
    requires cells[at..at + size] == DescriptorCells(DescriptorOf(r, data), size)
    requires cells[data..data + |r.data|] == RawCells(r.data)
    ensures RecordAt(cells, at, size) == Some(r)
  {
    DescriptorReadsBack(cells, at, DescriptorOf(r, data), size);
    RawCellsReadBack(cells, data, r.data);
  }

  lemma StoredListReadsBack(p: Platform, kind: Kind, records: RecordList, cells: seq<Cell>)
    requires p.Valid() && records != [] && ListStored(p, kind, records, cells)
    ensures RecordsThrough(p, kind, cells, Some(0), |records|) == Some(records)
  {
    ListReadsBack(cells, 0, DescriptorSize(p, kind), records, PoolOffset(p, kind, |records|));
  }

  lemma StoredSpanReadsBack(cells: seq<Cell>, at: nat, span: Span)
    requires at + |span| <= |cells| && cells[at..at + |span|] == RawCells(span)
    ensures SpanThrough(cells, SpanAt(|span|, at)) == Some(span)
  {
    RawCellsReadBack(cells, at, span);
  }

  /** Whoever follows the pointers of a decoded message into its storage sees the message. */
  lemma StoredReadsBack(p: Platform, body: Body, cells: seq<Cell>)
    requires p.Valid() && Stored(p, body, cells)
    requires body.Update? ==> body.operations != []
    ensures View(p, cells, NativeOf(body)) == Some(body)
  {
    match body
    case Update(_, _, operations) =>
      StoredListReadsBack(p, Operations, operations, cells);
    case Captured(_, _, _, _, captures) =>
      if captures != [] {
        StoredListReadsBack(p, Captures, captures, cells);
      }
    case Arbitrary(_, payload) => StoredSpanReadsBack(cells, 0, payload);
    case Error(_, _, _, _, _, diagnostic) => StoredSpanReadsBack(cells, 0, diagnostic);
    case SystemInfo(_, _, _, _, _, _, diagnostic, gitHash) =>
      var both := diagnostic + gitHash;
      assert cells[0..|diagnostic|] == cells[..|both|][..|diagnostic|] == RawCells(diagnostic);
      assert cells[|diagnostic|..|both|] == cells[..|both|][|diagnostic|..] == RawCells(gitHash);
      StoredSpanReadsBack(cells, 0, diagnostic);
      StoredSpanReadsBack(cells, |diagnostic|, gitHash);
  }
}

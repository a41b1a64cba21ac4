/**
 The Python binding around the codec: it sizes buffers by query, decodes into its own storage, and checks
 the native layout again before it follows any pointer. Its private checks are proved never to fail on what
 the codec returns, so every refusal it raises is the codec's own.
 */
module PythonBinding {
  import opened Sequences
  import opened Wire
  import opened Records
  import opened RecordScan
  import opened StorageSize
  import opened DecodeStorage
  import L = CodecLaws

  /** A value, an error carrying the codec's status, or one of the two errors that mean a broken binding. */
  datatype Answer<+T> =
    | Returned(value: T) | Raised(status: Status) | BindingError | InternalFailure | OutsideModel(messageType: byte)

  function CheckStatus(status: Status, sizedBuffer: bool): Answer<()> {
    if status == Ok then Returned(())
    else if status == InternalError then InternalFailure
    else if status == InvalidArgument || status == Uninitialized || (status == BufferTooSmall && sizedBuffer) then
      BindingError
    else Raised(status)
  }

  /** The peripheral numbers the Python enumeration has. */
  predicate KnownPeripheral(peripheral: int) {
    peripheral in {0, 1, 2, 3, 4, 5, 6, 16, 17, 18, 19, 255}
  }

  // ---------------------------------------------------------------------------
  // The reader of decoded record lists
  // ---------------------------------------------------------------------------

  /** What the reader demands of a list: laid out exactly, filling the storage, no empty or unknown record. */
  ghost predicate LaidOut(
      p: Platform, kind: Kind, pointer: Option<nat>, count: nat, cells: seq<Cell>, records: seq<Record>)
    requires p.Valid()
  {
    && |records| == count && StorageNeeded(p, kind, records) == |cells|
    && pointer == (if count == 0 then None else Some(0))
    && ListStored(p, kind, records, cells)
    && AllReadable(records)
  }

  /** One turn of the reader's loop: the span must be nonempty, in bounds, and start at the running offset. */
  function CheckedRecord(cells: seq<Cell>, slot: nat, size: nat, offset: nat): Option<Record> {
    match DescriptorAt(cells, slot, size)
    case None => None
    case Some(d) =>
      if d.size == 0 || offset + d.size > |cells| || d.data != offset || !KnownPeripheral(d.peripheral) then None
      else
        match BytesAt(cells, d.data, d.size)
        case None => None
        case Some(data) => Some(Record(d.peripheral, d.channel, data))
  }

  /** On a laid-out list the check of record i succeeds and gives that record. */
  lemma NextLaidOut(
      p: Platform, kind: Kind, pointer: Option<nat>, count: nat, cells: seq<Cell>, records: seq<Record>, i: nat)
    requires p.Valid() && LaidOut(p, kind, pointer, count, cells, records) && i < count
    ensures var size, end := DescriptorSize(p, kind), L.DataEnd(p, kind, records, i);
            && CheckedRecord(cells, i * size, size, end) == Some(records[i])
            && end + |records[i].data| == L.DataEnd(p, kind, records, i + 1)
            && records[..i] + [records[i]] == records[..i + 1]
  {
    L.SpansTileTheStorage(p, kind, records, cells, i);
    DataParts(records, i);
    PartReadsBack(cells, PoolOffset(p, kind, count), Data(records), |Data(records[..i])|, records[i].data);
    assert records[..i] + [records[i]] == records[..i + 1];
  }

  lemma PartReadsBack(cells: seq<Cell>, pool: nat, data: seq<byte>, before: nat, part: seq<byte>)
    requires pool + |data| <= |cells| && cells[pool..pool + |data|] == RawCells(data)
    requires before + |part| <= |data| && data[before..before + |part|] == part
    ensures BytesAt(cells, pool + before, |part|) == Some(part)
  {
    SliceOfSlice(cells, pool, pool + |data|, before, before + |part|);
    assert RawCells(data)[before..before + |part|] == RawCells(part);
    RawCellsReadBack(cells, pool + before, part);
  }

  lemma {:induction false} DataParts(records: seq<Record>, i: nat)
    requires i < |records|
    ensures var before, size := |Data(records[..i])|, |records[i].data|;
            before + size <= |Data(records)| && Data(records)[before..before + size] == records[i].data
    decreases i
  {
    if i == 0 {
    } else {
      DataParts(records[1..], i - 1);
      assert records[..i][0] == records[0] && records[..i][1..] == records[1..][..i - 1];
      var skip, before := |records[0].data|, |Data(records[1..][..i - 1])|;
      assert Data(records) == records[0].data + Data(records[1..]);
      assert Data(records)[skip..] == Data(records[1..]);
      assert |Data(records[..i])| == skip + before && records[1..][i - 1] == records[i];
      SliceOfSlice(Data(records), skip, |Data(records)|, before, before + |records[i].data|);
    }
  }

  /**
   The layout checker: it returns exactly the records of a list that is laid out as the decoder lays it out,
   and refuses everything else. `wanted` is any candidate list.
   */
  method ReadAlignedRecords(
      p: Platform, kind: Kind, pointer: Option<nat>, count: nat, cells: seq<Cell>, ghost wanted: seq<Record>)
    returns (records: Option<seq<Record>>)
    requires p.Valid()
    ensures LaidOut(p, kind, pointer, count, cells, wanted) ==> records == Some(wanted)
    ensures records.Some? ==> LaidOut(p, kind, pointer, count, cells, records.value)
  {
    var capacity := |cells|;
    if count == 0 {
      if capacity != 0 || pointer != None {
        return None;
      }
      assert cells == [] && ListStored(p, kind, [], cells);
      assert LaidOut(p, kind, pointer, count, cells, wanted) ==> wanted == [];
      return Some([]);
    }
    var size := DescriptorSize(p, kind);
    RoundUpIsLeastMultiple(count * size, p.alignment);
    var pool := (count * size + p.alignment - 1) / p.alignment * p.alignment;
    if capacity == 0 || pointer != Some(0) || pool > capacity {
      assert count * size > 0 by { ProductAtLeast(count, size); }
      return None;
    }
    records := ReadLoop(p, kind, pointer, count, cells, size, pool, wanted);
  }

  method ReadLoop(
      p: Platform, kind: Kind, pointer: Option<nat>, count: nat, cells: seq<Cell>, size: nat, pool: nat,
      ghost wanted: seq<Record>)
    returns (records: Option<seq<Record>>)
    requires p.Valid() && count != 0 && pointer == Some(0)
    requires size == DescriptorSize(p, kind) && pool == PoolOffset(p, kind, count) <= |cells|
    ensures LaidOut(p, kind, pointer, count, cells, wanted) ==> records == Some(wanted)
    ensures records.Some? ==> LaidOut(p, kind, pointer, count, cells, records.value)
  {
    hide LaidOut;
    hide CheckedRecord;
    hide Matches;
    FirstMatches(p, kind, pointer, count, cells, wanted);
    var offset: nat, slot: nat := pool, 0;
    var result: seq<Record> := [];
    var i := 0;
    ghost var laid := LaidOut(p, kind, pointer, count, cells, wanted);
    while i < count
      invariant 0 <= i <= count
      invariant laid ==> Matches(p, kind, wanted, result, i, offset)
      invariant ReadSoFar(cells, size, pool, result, i, slot, offset)
    {
      if laid {
        StillMatches(p, kind, pointer, count, cells, wanted, result, i, slot, offset);
      }
      var record := CheckedRecord(cells, slot, size, offset);
      if record.None? {
        return None;
      }
      var r := record.value;
      ReadOneMore(cells, size, pool, result, i, slot, offset, r);
      result := result + [r];
      offset := offset + |r.data|;
      slot := slot + size;
      i := i + 1;
    }
    if laid {
      WholeMatches(p, kind, pointer, count, cells, wanted);
    }
    if offset != |cells| {
      return None;
    }
    ReadToEnd(p, kind, count, cells, result, slot, offset);
    return Some(result);
  }

  ghost predicate Matches(p: Platform, kind: Kind, wanted: seq<Record>, result: seq<Record>, i: nat, offset: nat)
    requires p.Valid()
  {
    i <= |wanted| && result == wanted[..i] && offset == L.DataEnd(p, kind, wanted, i)
  }

  lemma FirstMatches(
      p: Platform, kind: Kind, pointer: Option<nat>, count: nat, cells: seq<Cell>, wanted: seq<Record>)
    requires p.Valid()
    ensures LaidOut(p, kind, pointer, count, cells, wanted) ==>
              Matches(p, kind, wanted, [], 0, PoolOffset(p, kind, count))
  {
  }

  lemma StillMatches(
      p: Platform, kind: Kind, pointer: Option<nat>, count: nat, cells: seq<Cell>, wanted: seq<Record>,
      result: seq<Record>, i: nat, slot: nat, offset: nat)
    requires p.Valid() && LaidOut(p, kind, pointer, count, cells, wanted) && i < count
    requires Matches(p, kind, wanted, result, i, offset) && slot == i * DescriptorSize(p, kind)
    ensures var record := CheckedRecord(cells, slot, DescriptorSize(p, kind), offset);
            record.Some? && Matches(p, kind, wanted, result + [record.value], i + 1, offset + |record.value.data|)
  {
    NextLaidOut(p, kind, pointer, count, cells, wanted, i);
  }

  lemma WholeMatches(
      p: Platform, kind: Kind, pointer: Option<nat>, count: nat, cells: seq<Cell>, wanted: seq<Record>)
    requires p.Valid() && LaidOut(p, kind, pointer, count, cells, wanted) && count != 0
    ensures forall result: seq<Record>, offset: nat ::
              Matches(p, kind, wanted, result, count, offset) ==> result == wanted && offset == |cells|
  {
    L.SpansTileTheStorage(p, kind, wanted, cells, 0);
  }

  lemma ReadToEnd(
      p: Platform, kind: Kind, count: nat, cells: seq<Cell>, result: seq<Record>, slot: nat, offset: nat)
    requires p.Valid() && count != 0 && PoolOffset(p, kind, count) <= |cells| == offset
    requires ReadSoFar(cells, DescriptorSize(p, kind), PoolOffset(p, kind, count), result, count, slot, offset)
    ensures LaidOut(p, kind, Some(0), count, cells, result)
  {
    RoundUpIsLeastMultiple(count * DescriptorSize(p, kind), p.alignment);
  }

  /** The descriptors and the data the reader has passed are those of the records it has collected. */
  ghost predicate ReadSoFar(
      cells: seq<Cell>, size: nat, pool: nat, result: seq<Record>, i: nat, slot: nat, offset: nat)
  {
    && |result| == i && slot == i * size
    && slot == |Descriptors(size, result, pool)| <= |cells| && offset == pool + |Data(result)| <= |cells|
    && cells[..slot] == Descriptors(size, result, pool)
    && cells[pool..offset] == RawCells(Data(result))
    && AllReadable(result)
  }

  predicate AllReadable(records: seq<Record>) {
    forall i | 0 <= i < |records| :: records[i].data != [] && KnownPeripheral(records[i].peripheral)
  }

  lemma ReadOneMore(
      cells: seq<Cell>, size: nat, pool: nat, result: seq<Record>, i: nat, slot: nat, offset: nat, r: Record)
    requires ReadSoFar(cells, size, pool, result, i, slot, offset)
    requires CheckedRecord(cells, slot, size, offset) == Some(r)
    ensures ReadSoFar(cells, size, pool, result + [r], i + 1, slot + size, offset + |r.data|)
  {
    hide CheckedRecord;
    assert (i + 1) * size == i * size + size;
    DescriptorsSnoc(size, result, r, pool);
    DataSnoc(result, r);
    CheckedIsStored(cells, slot, size, offset, r);
    var one, data := DescriptorCells(DescriptorOf(r, offset), size), RawCells(Data(result));
    assert 0 + |Descriptors(size, result, pool)| == slot;
    JoinRuns(cells, 0, Descriptors(size, result, pool), one);
    JoinRuns(cells, pool, data, RawCells(r.data));
    assert data + RawCells(r.data) == RawCells(Data(result + [r]));
  }

  lemma CheckedIsStored(cells: seq<Cell>, slot: nat, size: nat, offset: nat, r: Record)
    requires CheckedRecord(cells, slot, size, offset) == Some(r)
    ensures slot + size <= |cells| && cells[slot..slot + size] == DescriptorCells(DescriptorOf(r, offset), size)
    ensures offset + |r.data| <= |cells| && cells[offset..offset + |r.data|] == RawCells(r.data)
    ensures r.data != [] && KnownPeripheral(r.peripheral)
  {
  }

  // ---------------------------------------------------------------------------
  // Spans
  // ---------------------------------------------------------------------------

  /** A single span that must fill the storage, or be empty and without a pointer. `wanted` is any candidate. */
  method CopyOnlySpan(span: NativeSpan, cells: seq<Cell>, ghost wanted: Span) returns (bytes: Option<Span>)
    ensures |wanted| == |cells| && SpanStored(wanted, cells) && span == SpanAt(|wanted|, 0) ==> bytes == Some(wanted)
    ensures bytes.Some? ==> span.size == |cells| && SpanThrough(cells, span) == bytes
  {
    if span.size != |cells| {
      return None;
    }
    if span.size != 0 {
      if span.data != Some(0) {
        return None;
      }
      if |wanted| == |cells| && SpanStored(wanted, cells) {
        RawCellsReadBack(cells, 0, wanted);
      }
      var copied := BytesAt(cells, 0, span.size);
      if copied.None? {
        return None;
      }
      return Some(copied.value);
    } else if span.data != None {
      return None;
    }
    return Some([]);
  }

  /** The two spans of a discovery response, back to back, filling the storage; `one` and `two` are any candidates. */
  method CopyResponseSpans(
      diagnostic: NativeSpan, gitHash: NativeSpan, cells: seq<Cell>, ghost one: Span, ghost two: Span)
    returns (spans: Option<(Span, Span)>)
    ensures |one| + |two| == |cells| && SpanStored(one + two, cells)
            && diagnostic == SpanAt(|one|, 0) && gitHash == SpanAt(|two|, |one|)
            ==> spans == Some((one, two))
    ensures spans.Some? ==>
              && diagnostic.size + gitHash.size == |cells|
              && SpanThrough(cells, diagnostic) == Some(spans.value.0)
              && SpanThrough(cells, gitHash) == Some(spans.value.1)
  {
    if |one| + |two| == |cells| && SpanStored(one + two, cells) {
      assert cells[0..|one|] == cells[..|one + two|][..|one|] == RawCells(one);
      assert cells[|one|..|one| + |two|] == cells[..|one + two|][|one|..] == RawCells(two);
      RawCellsReadBack(cells, 0, one);
      RawCellsReadBack(cells, |one|, two);
    }
    if diagnostic.size + gitHash.size != |cells| {
      return None;
    }
    if diagnostic.size != 0 {
      if diagnostic.data != Some(0) {
        return None;
      }
    } else if diagnostic.data != None {
      return None;
    }
    if gitHash.size != 0 {
      if gitHash.data != Some(diagnostic.size) {
        return None;
      }
    } else if gitHash.data != None {
      return None;
    }
    var first := BytesAt(cells, 0, diagnostic.size);
    var second := BytesAt(cells, diagnostic.size, gitHash.size);
    if first.None? || second.None? {
      return None;
    }
    return Some((first.value, second.value));
  }
}

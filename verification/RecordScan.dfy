/**
 The aligned record list on the wire, and the allocation-free scanner that accepts or refuses it.
 Every record is a peripheral byte, a channel byte, a 16-bit length, the data, and zero bytes up to the
 next multiple of four.
 */
module RecordScan {
  import opened Sequences
  import opened Wire
  import opened Records

  const RECORD_HEADER := 4

  /** The one-byte wire value of a native enumeration; callers check the range before they publish it. */
  function WireByte(value: int): byte {
    if 0 <= value < 256 then value else 0
  }

  function RecordWire(r: Record): (wire: seq<byte>)
    ensures |wire| == RECORD_HEADER + |r.data| + Pad4(|r.data|)
  {
    [WireByte(r.peripheral), r.channel] + U16Le(|r.data|) + r.data + Zeros(Pad4(|r.data|))
  }

  function RecordsWire(records: seq<Record>): seq<byte>
    decreases |records|
  {
    if records == [] then [] else RecordWire(records[0]) + RecordsWire(records[1..])
  }

  lemma WordsAdd(a: nat, b: nat)
    requires a % 4 == 0 && b % 4 == 0
    ensures (a + b) % 4 == 0
  {
  }

  lemma RecordIsWords(r: Record)
    ensures |RecordWire(r)| % 4 == 0
  {
    assert |RecordWire(r)| == RECORD_HEADER + (|r.data| + Pad4(|r.data|));
  }

  /** Serialised records come in whole 32-bit words, whatever their data. */
  lemma {:induction false} RecordsAreWords(records: seq<Record>)
    ensures |RecordsWire(records)| % 4 == 0
    decreases |records|
  {
    if records == [] {
    } else {
      hide RecordWire;
      RecordsAreWords(records[1..]);
      RecordIsWords(records[0]);
      WordsAdd(|RecordWire(records[0])|, |RecordsWire(records[1..])|);
    }
  }

  lemma {:induction false} RecordsWireSnoc(records: seq<Record>, r: Record)
    ensures RecordsWire(records + [r]) == RecordsWire(records) + RecordWire(r)
    decreases |records|
  {
    if records == [] {
      assert ([] + [r])[1..] == [];
    } else {
      assert (records + [r])[1..] == records[1..] + [r];
      RecordsWireSnoc(records[1..], r);
    }
  }

  /** The data of all records, back to back: what the decoder's payload pool holds. */
  function Data(records: seq<Record>): seq<byte>
    decreases |records|
  {
    if records == [] then [] else records[0].data + Data(records[1..])
  }

  lemma {:induction false} DataSnoc(records: seq<Record>, r: Record)
    ensures Data(records + [r]) == Data(records) + r.data
    decreases |records|
  {
    if records == [] {
      assert ([] + [r])[1..] == [];
    } else {
      assert (records + [r])[1..] == records[1..] + [r];
      DataSnoc(records[1..], r);
    }
  }

  lemma {:induction false} DataIsNoLongerThanWire(records: seq<Record>)
    ensures |Data(records)| + RECORD_HEADER * |records| <= |RecordsWire(records)|
    decreases |records|
  {
    if records == [] {
    } else {
      DataIsNoLongerThanWire(records[1..]);
    }
  }

  // ---------------------------------------------------------------------------
  // The scanner's verdict
  // ---------------------------------------------------------------------------

  datatype One = Scanned(record: Record, next: nat) | Refused(status: Status)

  datatype Tally = Total(bytes: nat) | NoTotal(status: Status)

  datatype Scan = Accepted(records: seq<Record>) | Rejected(status: Status)

  /** Zero bytes at the given place, as padding requires. */
  predicate ZeroAt(payload: seq<byte>, at: nat, n: nat) {
    at + n <= |payload| && forall i | at <= i < at + n :: payload[i] == 0
  }

  function PairOf(r: Record): Pair {
    (r.peripheral, r.channel as int)
  }

  /** One record at `offset`: the checks in the order the scanner makes them. */
  function ScanOne(ctx: Context, kind: Kind, payload: seq<byte>, offset: nat, pairs: set<Pair>): (one: One)
    requires offset <= |payload|
    ensures one.Scanned? ==> offset + |one.record.data| < one.next <= |payload|
    ensures one.Refused? ==> one.status != Ok
  {
    if |payload| - offset < RECORD_HEADER then Refused(MalformedMessage)
    else
      var peripheral := payload[offset];
      var channel := payload[offset + 1];
      var length := ReadU16(payload, offset + 2);
      var body := offset + RECORD_HEADER;
      if length == 0 then Refused(MalformedMessage)
      else if length > ctx.maxVariable then Refused(ValidationFailed)
      else if |payload| - body < length then Refused(MalformedMessage)
      else if !CanMark(pairs, peripheral, channel) then Refused(ValidationFailed)
      else
        var data := payload[body..body + length];
        var status := Fields(ctx, kind, peripheral, channel, data);
        if status != Ok then Refused(status)
        else if !ZeroAt(payload, body + length, Pad4(length)) then Refused(MalformedMessage)
        else Scanned(Record(peripheral, channel, data), body + length + Pad4(length))
  }

  function Prepend(done: seq<Record>, scan: Scan): Scan {
    match scan
    case Accepted(records) => Accepted(done + records)
    case Rejected(status) => Rejected(status)
  }

  /** Exactly `count` records from `offset` to the end of the payload. */
  function ScanFrom(ctx: Context, kind: Kind, payload: seq<byte>, offset: nat, count: nat, pairs: set<Pair>):
    (scan: Scan)
    requires offset <= |payload|
    ensures scan.Rejected? ==> scan.status != Ok
    ensures scan.Accepted? ==> |scan.records| == count
    decreases count
  {
    if count == 0 then
      if offset == |payload| then Accepted([]) else Rejected(MalformedMessage)
    else
      match ScanOne(ctx, kind, payload, offset, pairs)
      case Refused(status) => Rejected(status)
      case Scanned(r, next) =>
        Prepend([r], ScanFrom(ctx, kind, payload, next, count - 1, pairs + {PairOf(r)}))
  }

  method PaddingIsZero(payload: seq<byte>, at: nat, pad: nat) returns (zero: bool)
    requires at + pad <= |payload|
    ensures zero <==> ZeroAt(payload, at, pad)
  {
    var i := 0;
    while i < pad
      invariant 0 <= i <= pad
      invariant ZeroAt(payload, at, i)
    {
      if payload[at + i] != 0 {
        return false;
      }
      i := i + 1;
    }
    return true;
  }

  /** One turn of the scanner's loop, on the duplicate masks. No size wraps. */
  method ScanRecord(
      ctx: Context, kind: Kind, payload: seq<byte>, start: nat, seen: array<bv16>, ghost pairs: set<Pair>)
    returns (status: Status, length: nat, offset: nat, ghost r: Record)
    requires start <= |payload| && MasksHold(seen[..], pairs)
    modifies seen
    ensures start <= offset <= |payload|
    ensures ScanOne(ctx, kind, payload, start, pairs) == if status == Ok then Scanned(r, offset) else Refused(status)
    ensures status == Ok ==> length == |r.data| && MasksHold(seen[..], pairs + {PairOf(r)})
  {
    hide Fields;
    hide MasksHold;
    length, offset := 0, start;
    r := Record(0, 0, []);
    var remaining: nat := |payload| - offset;
    if remaining < RECORD_HEADER {
      status := MalformedMessage;
      return;
    }
    var peripheral := payload[offset];
    var channel := payload[offset + 1];
    length := ReadU16(payload, offset + 2);
    offset := offset + RECORD_HEADER;
    if length == 0 {
      status := MalformedMessage;
      return;
    }
    if length > ctx.maxVariable {
      status := ValidationFailed;
      return;
    }
    remaining := |payload| - offset;
    if remaining < length {
      status := MalformedMessage;
      return;
    }
    var data := payload[offset..offset + length];
    r := Record(peripheral, channel, data);
    status := RecordPairMark(seen, peripheral, channel, pairs);
    if status != Ok {
      return;
    }
    status := ValidateFields(ctx, kind, peripheral, channel, data);
    if status != Ok {
      return;
    }
    offset := offset + length;
    var pad := Pad4(length);
    remaining := |payload| - offset;
    if remaining < pad {
      status := MalformedMessage;
      return;
    }
    var zero := PaddingIsZero(payload, offset, pad);
    if !zero {
      status := MalformedMessage;
      return;
    }
    offset := offset + pad;
  }

  /** The same scan, keeping only the total of the record lengths, as the scanner's loop does. */
  function TallyFrom(
      ctx: Context, kind: Kind, payload: seq<byte>, offset: nat, count: nat, pairs: set<Pair>, total: nat): Tally
    requires offset <= |payload|
    decreases count
  {
    if count == 0 then
      if offset == |payload| then Total(total) else NoTotal(MalformedMessage)
    else
      match ScanOne(ctx, kind, payload, offset, pairs)
      case Refused(status) => NoTotal(status)
      case Scanned(r, next) =>
        TallyFrom(ctx, kind, payload, next, count - 1, pairs + {PairOf(r)}, total + |r.data|)
  }

  lemma {:induction false} TallyIsDataSize(
      ctx: Context, kind: Kind, payload: seq<byte>, offset: nat, count: nat, pairs: set<Pair>, total: nat)
    requires offset <= |payload|
    ensures TallyFrom(ctx, kind, payload, offset, count, pairs, total)
         == match ScanFrom(ctx, kind, payload, offset, count, pairs)
            case Accepted(records) => Total(total + |Data(records)|)
            case Rejected(status) => NoTotal(status)
    decreases count
  {
    hide ScanOne;
    if count == 0 {
    } else {
      var one := ScanOne(ctx, kind, payload, offset, pairs);
      if one.Scanned? {
        var r, after := one.record, pairs + {PairOf(one.record)};
        TallyIsDataSize(ctx, kind, payload, one.next, count - 1, after, total + |r.data|);
        var rest := ScanFrom(ctx, kind, payload, one.next, count - 1, after);
        if rest.Accepted? {
          assert ([r] + rest.records)[1..] == rest.records;
        }
      }
    }
  }

  /**
   The scanner: no allocation, and no addition that overflows. It returns the status of the scan and, on
   success, the total of the record lengths.
   */
  method AlignedRecordsScan(p: Platform, ctx: Context, kind: Kind, payload: seq<byte>, start: nat, count: nat)
    returns (status: Status, total: nat)
    requires p.Valid() && start <= |payload| <= 0xFFFF
    ensures TallyFrom(ctx, kind, payload, start, count, {}, 0) == if status == Ok then Total(total) else NoTotal(status)
  {
    hide ScanOne;
    var offset := start;
    total := 0;
    var seen := new bv16[MASK_COUNT](_ => 0);
    NothingMarked(seen[..]);
    ghost var pairs: set<Pair> := {};
    var i := 0;
    while i < count
      invariant 0 <= i <= count && start <= offset <= |payload|
      invariant MasksHold(seen[..], pairs)
      invariant total <= offset - start
      invariant TallyFrom(ctx, kind, payload, start, count, {}, 0)
             == TallyFrom(ctx, kind, payload, offset, count - i, pairs, total)
    {
      var length, next;
      ghost var r;
      status, length, next, r := ScanRecord(ctx, kind, payload, offset, seen, pairs);
      if status != Ok {
        return;
      }
      pairs := pairs + {PairOf(r)};
      offset := next;
      var sum := CheckedAdd(p, total, length);
      if sum.None? {
        assert false;
      } else {
        total := sum.value;
      }
      i := i + 1;
    }
    if offset != |payload| {
      return MalformedMessage, total;
    }
    return Ok, total;
  }

  // ---------------------------------------------------------------------------
  // Soundness and completeness
  // ---------------------------------------------------------------------------

  /** The payload from `offset` on starts with this record and goes on at `next`. */
  ghost predicate Spells(payload: seq<byte>, offset: nat, r: Record, next: nat) {
    && offset <= next <= |payload|
    && payload[offset..next] == RecordWire(r)
  }

  lemma ScanOneSound(ctx: Context, kind: Kind, payload: seq<byte>, offset: nat, pairs: set<Pair>)
    requires offset <= |payload|
    requires ScanOne(ctx, kind, payload, offset, pairs).Scanned?
    ensures var one := ScanOne(ctx, kind, payload, offset, pairs);
            && Spells(payload, offset, one.record, one.next)
            && CanMark(pairs, one.record.peripheral, one.record.channel)
            && Fields(ctx, kind, one.record.peripheral, one.record.channel, one.record.data) == Ok
  {
    var one := ScanOne(ctx, kind, payload, offset, pairs);
    SpellsFields(payload, offset, one.record, one.next);
  }

  /** Header fields, data and zero padding found in their places make up the serialised record. */
  lemma SpellsFields(payload: seq<byte>, offset: nat, r: Record, next: nat)
    requires var body, length := offset + RECORD_HEADER, |r.data|;
             && next == body + length + Pad4(length) <= |payload|
             && payload[offset] == r.peripheral && payload[offset + 1] == r.channel
             && ReadU16(payload, offset + 2) == length
             && payload[body..body + length] == r.data
             && ZeroAt(payload, body + length, Pad4(length))
    ensures Spells(payload, offset, r, next)
  {
    var body, length := offset + RECORD_HEADER, |r.data|;
    U16RoundTrip(payload, offset + 2, length);
    assert payload[offset..offset + 2] == [payload[offset], payload[offset + 1]];
    ZeroRun(payload, body + length, Pad4(length));
    FourParts(payload, offset, offset + 2, body, body + length, next);
  }

  lemma ZeroRun(payload: seq<byte>, at: nat, n: nat)
    requires ZeroAt(payload, at, n)
    ensures payload[at..at + n] == Zeros(n)
  {
    forall i | 0 <= i < n
      ensures payload[at..at + n][i] == Zeros(n)[i]
    {
      assert payload[at..at + n][i] == payload[at + i];
    }
  }

  /** What a reader finds at the places of a serialised record. */
  lemma FieldsOfSpelled(payload: seq<byte>, offset: nat, r: Record, next: nat)
    requires Spells(payload, offset, r, next)
    ensures var body, length := offset + RECORD_HEADER, |r.data|;
            && next == body + length + Pad4(length)
            && payload[offset] == WireByte(r.peripheral) && payload[offset + 1] == r.channel
            && ReadU16(payload, offset + 2) == length
            && payload[body..body + length] == r.data
            && ZeroAt(payload, body + length, Pad4(length))
  {
    var body, length := offset + RECORD_HEADER, |r.data|;
    var wire := payload[offset..next];
    assert wire == [WireByte(r.peripheral), r.channel] + U16Le(length) + r.data + Zeros(Pad4(length));
    assert wire[0] == payload[offset] && wire[1] == payload[offset + 1];
    SliceOfSlice(payload, offset, next, 2, 4);
    assert wire[2..4] == U16Le(length);
    U16RoundTrip(payload, offset + 2, length);
    SliceOfSlice(payload, offset, next, 4, 4 + length);
    assert wire[4..4 + length] == r.data;
    SliceOfSlice(payload, offset, next, 4 + length, |wire|);
    assert wire[4 + length..|wire|] == Zeros(Pad4(length));
    forall i | body + length <= i < next
      ensures payload[i] == 0
    {
      assert payload[i] == payload[body + length..next][i - (body + length)];
    }
  }

  lemma ScanOneComplete(
      ctx: Context, kind: Kind, payload: seq<byte>, offset: nat, pairs: set<Pair>, r: Record, next: nat)
    requires Spells(payload, offset, r, next)
    requires CanMark(pairs, r.peripheral, r.channel)
    requires Fields(ctx, kind, r.peripheral, r.channel, r.data) == Ok
    ensures ScanOne(ctx, kind, payload, offset, pairs) == Scanned(r, next)
  {
    FieldsOfSpelled(payload, offset, r, next);
  }

  /** Soundness: an accepted payload serialises exactly the records the scan found, all of them valid. */
  lemma {:induction false} ScanIsSound(
      ctx: Context, kind: Kind, payload: seq<byte>, offset: nat, count: nat, pairs: set<Pair>)
    requires offset <= |payload|
    requires ScanFrom(ctx, kind, payload, offset, count, pairs).Accepted?
    ensures var records := ScanFrom(ctx, kind, payload, offset, count, pairs).records;
            && |records| == count
            && payload[offset..] == RecordsWire(records)
            && ListVerdict(ctx, kind, records, pairs) == Ok
    decreases count
  {
    hide ScanOne;
    if count == 0 {
    } else {
      var one := ScanOne(ctx, kind, payload, offset, pairs);
      ScanOneSound(ctx, kind, payload, offset, pairs);
      var after := pairs + {(one.record.peripheral, one.record.channel as int)};
      ScanIsSound(ctx, kind, payload, one.next, count - 1, after);
      var rest := ScanFrom(ctx, kind, payload, one.next, count - 1, after).records;
      assert ([one.record] + rest)[1..] == rest;
      assert payload[offset..] == payload[offset..one.next] + payload[one.next..];
    }
  }

  /** Completeness: the serialisation of any valid record list is accepted, as that list. */
  lemma {:induction false} ScanIsComplete(
      ctx: Context, kind: Kind, payload: seq<byte>, offset: nat, records: seq<Record>, pairs: set<Pair>)
    requires offset <= |payload| && payload[offset..] == RecordsWire(records)
    requires ListVerdict(ctx, kind, records, pairs) == Ok
    ensures ScanFrom(ctx, kind, payload, offset, |records|, pairs) == Accepted(records)
    decreases |records|
  {
    hide ScanOne;
    if records == [] {
    } else {
      var r, rest := records[0], records[1..];
      var next := offset + |RecordWire(r)|;
      assert RecordsWire(records) == RecordWire(r) + RecordsWire(rest);
      assert payload[offset..next] == payload[offset..][..|RecordWire(r)|];
      assert payload[next..] == payload[offset..][|RecordWire(r)|..];
      ScanOneComplete(ctx, kind, payload, offset, pairs, r, next);
      ScanIsComplete(ctx, kind, payload, next, rest, pairs + {PairOf(r)});
      assert [r] + rest == records;
    }
  }

  /** The scan accepts exactly the serialisations of valid record lists of the announced length. */
  lemma AcceptedExactlyWhenSerialised(
      ctx: Context, kind: Kind, payload: seq<byte>, start: nat, count: nat, records: seq<Record>)
    requires start <= |payload|
    ensures ScanFrom(ctx, kind, payload, start, count, {}) == Accepted(records)
            <==> |records| == count && payload[start..] == RecordsWire(records)
                 && ListVerdict(ctx, kind, records, {}) == Ok
  {
    if ScanFrom(ctx, kind, payload, start, count, {}) == Accepted(records) {
      ScanIsSound(ctx, kind, payload, start, count, {});
    }
    if |records| == count && payload[start..] == RecordsWire(records) && ListVerdict(ctx, kind, records, {}) == Ok {
      ScanIsComplete(ctx, kind, payload, start, records, {});
    }
  }
}

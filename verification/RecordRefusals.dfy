/**
 Why the record scan refuses what it refuses: records that are laid out correctly get the validator's own
 status, and a fault of layout behind any accepted records is malformed.
 */
module RecordRefusals {
  import opened Wire
  import opened Records
  import opened RecordScan

  /** Records that have a wire form and are not empty: what a scanner can take for records. */
  predicate WellFormed(records: seq<Record>) {
    forall i :: 0 <= i < |records| ==> 0 <= records[i].peripheral < 256 && records[i].data != []
  }

  lemma ScanOneOfSpelled(
      ctx: Context, kind: Kind, payload: seq<byte>, offset: nat, pairs: set<Pair>, r: Record, next: nat)
    requires RecordScan.Spells(payload, offset, r, next) && r.data != [] && 0 <= r.peripheral < 256
    ensures ScanOne(ctx, kind, payload, offset, pairs)
         == if !CanMark(pairs, r.peripheral, r.channel) then Refused(ValidationFailed)
            else if Fields(ctx, kind, r.peripheral, r.channel, r.data) != Ok
            then Refused(Fields(ctx, kind, r.peripheral, r.channel, r.data))
            else Scanned(r, next)
  {
    FieldsOfSpelled(payload, offset, r, next);
  }

  lemma FirstSpelled(payload: seq<byte>, offset: nat, end: nat, records: seq<Record>) returns (next: nat)
    requires offset <= end <= |payload| && payload[offset..end] == RecordsWire(records) && records != []
    ensures offset <= next <= end
    ensures RecordScan.Spells(payload, offset, records[0], next) && payload[next..end] == RecordsWire(records[1..])
  {
    next := offset + |RecordWire(records[0])|;
    var all := payload[offset..end];
    assert RecordsWire(records) == RecordWire(records[0]) + RecordsWire(records[1..]);
    assert payload[offset..next] == all[..|RecordWire(records[0])|];
    assert payload[next..end] == all[|RecordWire(records[0])|..];
  }

  /**
   The scan of any well-formed records, valid or not, and whatever follows them: the validator's status of the
   first one that fails, or else the scan of what follows, with their pairs seen.
   */
  lemma {:induction false} ScanOfWire(
      ctx: Context, kind: Kind, payload: seq<byte>, offset: nat, end: nat, records: seq<Record>, more: nat,
      pairs: set<Pair>)
    requires offset <= end <= |payload| && payload[offset..end] == RecordsWire(records) && WellFormed(records)
    ensures ScanFrom(ctx, kind, payload, offset, |records| + more, pairs)
         == if ListVerdict(ctx, kind, records, pairs) != Ok then Rejected(ListVerdict(ctx, kind, records, pairs))
            else Prepend(records, ScanFrom(ctx, kind, payload, end, more, pairs + PairsOf(records)))
    decreases |records|
  {
    hide ScanOne;
    hide Fields;
    if records == [] {
      assert pairs + {} == pairs;
    } else {
      hide RecordsWire;
      hide RecordScan.Spells;
      hide Prepend;
      hide CanMark;
      var r, rest := records[0], records[1..];
      var next := FirstSpelled(payload, offset, end, records);
      assert [r] + rest == records;
      ScanOneOfSpelled(ctx, kind, payload, offset, pairs, r, next);
      var seen := pairs + {PairOf(r)};
      ScanOfWire(ctx, kind, payload, next, end, rest, more, seen);
      assert seen + PairsOf(rest) == pairs + PairsOf(records);
      PrependTwice(r, rest, ScanFrom(ctx, kind, payload, end, more, pairs + PairsOf(records)));
    }
  }

  function PairsOf(records: seq<Record>): set<Pair>
    decreases |records|
  {
    if records == [] then {} else {PairOf(records[0])} + PairsOf(records[1..])
  }

  lemma PrependTwice(r: Record, rest: seq<Record>, scan: Scan)
    ensures Prepend([r], Prepend(rest, scan)) == Prepend([r] + rest, scan)
  {
  }

  // ---------------------------------------------------------------------------
  // Faults of layout
  // ---------------------------------------------------------------------------

  /** What stands behind the accepted records cannot be a record. */
  predicate CannotBeRecord(ctx: Context, rest: seq<byte>) {
    || |rest| < 4
    || (rest[2] == 0 && rest[3] == 0)
    || |rest| - 4 < ReadU16(rest, 2) <= ctx.maxVariable
  }

  lemma RefusedLayout(ctx: Context, kind: Kind, payload: seq<byte>, offset: nat, pairs: set<Pair>)
    requires offset <= |payload| && CannotBeRecord(ctx, payload[offset..])
    ensures ScanOne(ctx, kind, payload, offset, pairs) == Refused(MalformedMessage)
  {
  }

  /**
   Behind accepted records, bytes too many, a record missing or cut short, or one without data make the list
   malformed.
   */
  lemma LayoutFaultIsMalformed(
      ctx: Context, kind: Kind, payload: seq<byte>, offset: nat, end: nat, records: seq<Record>, more: nat)
    requires offset <= end <= |payload| && payload[offset..end] == RecordsWire(records)
    requires WellFormed(records) && ListVerdict(ctx, kind, records, {}) == Ok
    requires if more == 0 then end < |payload| else CannotBeRecord(ctx, payload[end..])
    ensures ScanFrom(ctx, kind, payload, offset, |records| + more, {}) == Rejected(MalformedMessage)
  {
    ScanOfWire(ctx, kind, payload, offset, end, records, more, {});
    if more > 0 {
      RefusedLayout(ctx, kind, payload, end, {} + PairsOf(records));
    }
  }

  /** The same bytes but for a byte of the padding, which is not zero. */
  ghost predicate BadPadding(payload: seq<byte>, offset: nat, r: Record) {
    var body, size := offset + 4, |r.data|;
    && body + size + Pad4(size) <= |payload|
    && payload[offset..body + size] == RecordWire(r)[..4 + size]
    && exists i :: body + size <= i < body + size + Pad4(size) && payload[i] != 0
  }

  /** Header and data of a record stand where its whole wire form has them. */
  lemma UnpaddedReads(payload: seq<byte>, offset: nat, r: Record)
    requires var size := |r.data|;
             offset + 4 + size <= |payload| && payload[offset..offset + 4 + size] == RecordWire(r)[..4 + size]
    ensures payload[offset] == WireByte(r.peripheral) && payload[offset + 1] == r.channel
    ensures ReadU16(payload, offset + 2) == |r.data| && payload[offset + 4..offset + 4 + |r.data|] == r.data
  {
    var size := |r.data|;
    var clean := payload[..offset] + RecordWire(r);
    assert clean[offset..] == RecordWire(r);
    FieldsOfSpelled(clean, offset, r, |clean|);
    var part := payload[offset..offset + 4 + size];
    assert part == clean[offset..offset + 4 + size];
    assert forall k :: 0 <= k < 4 + size ==> payload[offset + k] == part[k] && clean[offset + k] == part[k];
    assert payload[offset + 4..offset + 4 + size] == part[4..] == clean[offset + 4..offset + 4 + size];
  }

  /** A record that is acceptable but for its padding is malformed. */
  lemma BadPaddingIsMalformed(ctx: Context, kind: Kind, payload: seq<byte>, offset: nat, pairs: set<Pair>, r: Record)
    requires BadPadding(payload, offset, r) && r.data != [] && CanMark(pairs, r.peripheral, r.channel)
    requires Fields(ctx, kind, r.peripheral, r.channel, r.data) == Ok
    ensures ScanOne(ctx, kind, payload, offset, pairs) == Refused(MalformedMessage)
  {
    assert |r.data| <= ctx.maxVariable;
    UnpaddedReads(payload, offset, r);
    hide Fields;
    hide RecordWire;
    hide Pad4;
    hide ReadU16;
  }
}

/**
 The bound hidden in the duplicate bitmask: although the count byte allows 255 records, the channel
 rules leave room for far fewer distinct pairs.
 */
module RecordBound {
  import opened Wire
  import opened Records

  const MAX_OPERATIONS := 15
  const MAX_CAPTURES := 11

  function Bound(kind: Kind): nat {
    match kind
    case Operations => MAX_OPERATIONS
    case Captures => MAX_CAPTURES
  }

  function BusPairs(): set<Pair> {
    {(UART, 0), (UART, 1), (SPI, 0), (SPI, 1), (CAN, 0), (CAN, 1)}
  }

  function AnalogOutputPairs(): set<Pair> {
    {(ANALOG_OUTPUT, 0), (ANALOG_OUTPUT, 1), (ANALOG_OUTPUT, 2), (ANALOG_OUTPUT, 3), (ANALOG_OUTPUT, 4),
     (ANALOG_OUTPUT, 5)}
  }

  /** The pairs of the kind that are not on a bus. */
  function OwnPairs(kind: Kind): set<Pair> {
    match kind
    case Operations => AnalogOutputPairs() + {(DIGITAL_OUTPUT, 0), (PWM_OUTPUT, 0), (PWM_OUTPUT, 1)}
    case Captures => {(DIGITAL_INPUT, 0), (PWM_INPUT, 0), (PWM_INPUT, 1), (ANALOG_INPUT, 0), (ANALOG_INPUT, 1)}
  }

  /** Every pair the field rules can accept. */
  function AllowedPairs(kind: Kind): set<Pair> {
    BusPairs() + OwnPairs(kind)
  }

  lemma AcceptedPairIsAllowed(ctx: Context, kind: Kind, r: Record)
    requires Fields(ctx, kind, r.peripheral, r.channel, r.data) == Ok
    ensures (r.peripheral, r.channel as int) in AllowedPairs(kind)
  {
  }

  lemma DisjointSizes<T>(a: set<T>, b: set<T>)
    requires a !! b
    ensures |a + b| == |a| + |b|
  {
  }

  lemma OwnPairsAreFew(kind: Kind)
    ensures |OwnPairs(kind)| == Bound(kind) - 6
  {
    if kind == Operations {
      var few: set<Pair> := {(DIGITAL_OUTPUT, 0), (PWM_OUTPUT, 0), (PWM_OUTPUT, 1)};
      assert |few| == 3;
      assert |AnalogOutputPairs()| == 6;
      DisjointSizes(AnalogOutputPairs(), few);
    }
  }

  lemma AllowedPairsAreFew(kind: Kind)
    ensures |AllowedPairs(kind)| == Bound(kind)
  {
    hide BusPairs;
    hide OwnPairs;
    OwnPairsAreFew(kind);
    BusPairsAreSix();
    BusPairsAreNotOwn(kind);
    DisjointSizes(BusPairs(), OwnPairs(kind));
  }

  lemma BusPairsAreSix()
    ensures |BusPairs()| == 6
  {
  }

  lemma BusPairsAreNotOwn(kind: Kind)
    ensures BusPairs() !! OwnPairs(kind)
  {
  }

  lemma SubsetIsNoLarger<T>(a: set<T>, b: set<T>)
    requires a <= b
    ensures |a| <= |b|
  {
    assert b == a + (b - a);
  }

  /** Accepted records add one distinct allowed pair each to those already seen. */
  lemma {:induction false} PairsGrowWithRecords(ctx: Context, kind: Kind, records: seq<Record>, pairs: set<Pair>)
    requires ListVerdict(ctx, kind, records, pairs) == Ok && pairs <= AllowedPairs(kind)
    ensures |pairs| + |records| <= |AllowedPairs(kind)|
    decreases |records|
  {
    if records == [] {
      SubsetIsNoLarger(pairs, AllowedPairs(kind));
    } else {
      AcceptedPairIsAllowed(ctx, kind, records[0]);
      PairsGrowWithRecords(ctx, kind, records[1..], pairs + {(records[0].peripheral, records[0].channel as int)});
    }
  }

  /** An accepted Update Instruction has at most 15 operations, a Variable Test Result at most 11 records. */
  lemma AcceptedListIsShort(ctx: Context, kind: Kind, records: seq<Record>)
    requires ListVerdict(ctx, kind, records, {}) == Ok
    ensures |records| <= Bound(kind)
  {
    PairsGrowWithRecords(ctx, kind, records, {});
    AllowedPairsAreFew(kind);
  }

  /** A record the field rules accept, for each allowed pair. */
  function Sample(kind: Kind, pair: Pair): Record
    requires pair in AllowedPairs(kind)
  {
    var data: Span :=
      if pair.0 == DIGITAL_OUTPUT || pair.0 == DIGITAL_INPUT then Zeros(2)
      else if pair.0 == ANALOG_OUTPUT || pair.0 == ANALOG_INPUT then Zeros(4)
      else if pair.0 == PWM_OUTPUT || pair.0 == PWM_INPUT then Zeros(6)
      else if pair.0 == SPI then [1, 1, 0]
      else if pair.0 == CAN then Zeros(12)
      else [0];
    Record(pair.0, pair.1, data)
  }

  lemma SpiSampleIsTable()
    ensures SpiTableOk([1, 1, 0])
  {
    var data: seq<byte> := [1, 1, 0];
    assert data[1..2] == [1] && data[1..2][..0] == [];
    assert Sum(data[1..2]) == 1;
  }

  lemma CanSampleIsFrame()
    ensures CanFramesOk(Zeros(12))
  {
    var data := Zeros(12);
    assert forall at | 0 <= at < |data| && at % CAN_FRAME_SIZE == 0 :: at == 0;
  }

  lemma SampleIsAccepted(ctx: Context, kind: Kind, pair: Pair)
    requires ctx.maxVariable >= CAN_FRAME_SIZE && pair in AllowedPairs(kind)
    ensures var r := Sample(kind, pair); Fields(ctx, kind, r.peripheral, r.channel, r.data) == Ok
  {
    var data := Sample(kind, pair).data;
    if pair.0 == DIGITAL_OUTPUT || pair.0 == DIGITAL_INPUT {
      assert ReadU16(data, 0) == 0;
      assert DigitalBankOk(pair.1, data);
    } else if pair.0 == PWM_OUTPUT || pair.0 == PWM_INPUT {
      assert ReadU32(data, 0) == 0 && ReadU16(data, 4) == 0;
      assert PwmOk(pair.1, PWM_CHANNELS, data);
    } else if pair.0 == SPI {
      SpiSampleIsTable();
      assert data == [1, 1, 0];
      assert SpiTableOk(data);
    } else if pair.0 == CAN {
      CanSampleIsFrame();
      assert data == Zeros(12);
      assert CanFramesOk(data);
    }
  }

  lemma {:induction false} SamplesAreAccepted(ctx: Context, kind: Kind, left: set<Pair>, pairs: set<Pair>)
    returns (records: seq<Record>)
    requires ctx.maxVariable >= CAN_FRAME_SIZE
    requires left <= AllowedPairs(kind) && left !! pairs
    ensures |records| == |left| && ListVerdict(ctx, kind, records, pairs) == Ok
    decreases |left|
  {
    hide Fields;
    hide AllowedPairs;
    hide Sample;
    if left == {} {
      return [];
    }
    var pair :| pair in left;
    SampleIsAccepted(ctx, kind, pair);
    SampleHasPair(kind, pair);
    var more := SamplesAreAccepted(ctx, kind, left - {pair}, pairs + {pair});
    var sample := Sample(kind, pair);
    records := [sample] + more;
    assert records[0] == sample && records[1..] == more;
    assert (sample.peripheral, sample.channel as int) == pair;
    assert |left| == |left - {pair}| + 1;
  }

  lemma SampleHasPair(kind: Kind, pair: Pair)
    requires pair in AllowedPairs(kind)
    ensures var r := Sample(kind, pair);
            r.peripheral == pair.0 && r.channel == pair.1 && PairInRange(r.peripheral, r.channel)
  {
  }

  /** The bound is exact wherever a CAN frame fits the variable-data limit. */
  lemma BoundIsReached(ctx: Context, kind: Kind) returns (records: seq<Record>)
    requires ctx.maxVariable >= CAN_FRAME_SIZE
    ensures |records| == Bound(kind) && ListVerdict(ctx, kind, records, {}) == Ok
  {
    AllowedPairsAreFew(kind);
    records := SamplesAreAccepted(ctx, kind, AllowedPairs(kind), {});
  }
}

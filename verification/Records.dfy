/**
 Typed records of an Update Instruction and a Variable Test Result: the per-record field rules, the
 duplicate bitmask, and the validation of a record list.
 */
module Records {
  import opened Wire

  datatype Status =
    | Ok | InvalidArgument | Uninitialized | BufferTooSmall | InvalidMessageType | InvalidSubtype
    | MalformedMessage | TruncatedMessage | InvalidLength | InvalidCount | UnsupportedMessage
    | InconsistentTestId | InconsistentTick | IncompleteData | ValidationFailed | NotImplemented
    | InternalError | VersionMismatch

  /** The codec context: copied limits, set once by `Init`. */
  datatype Context = Context(maxMessage: nat, maxVariable: nat, maxTicks: u32, initialized: bool)

  const DIGITAL_INPUT := 1
  const DIGITAL_OUTPUT := 2
  const ANALOG_INPUT := 3
  const ANALOG_OUTPUT := 4
  const PWM_INPUT := 5
  const PWM_OUTPUT := 6
  const UART := 16
  const SPI := 17
  const I2C := 18
  const CAN := 19

  /** One mask per peripheral number up to CAN, and one bit per channel. */
  const MASK_COUNT := 20
  const CHANNEL_LIMIT := 16

  const ANALOG_OUTPUT_CHANNELS := 6
  const ANALOG_INPUT_CHANNELS := 2
  const PWM_CHANNELS := 2
  const BUS_CHANNELS := 2
  const CAN_FRAME_SIZE := 12

  type Span = s: seq<byte> | |s| < 0x1_0000

  /** A logical operation or a captured record; the two structures have the same fields. */
  datatype Record = Record(peripheral: int, channel: byte, data: Span)

  /** Operations belong to an Update Instruction, captures to a Variable Test Result. */
  datatype Kind = Operations | Captures

  // ---------------------------------------------------------------------------
  // Field rules of one record
  // ---------------------------------------------------------------------------

  /** Bits 10 to 15 of a digital bank are reserved. */
  predicate DigitalBankOk(channel: byte, data: seq<byte>) {
    channel == 0 && |data| == 2 && ReadU16(data, 0) < 0x400
  }

  /** The bit of weight `weight` in a value. */
  predicate Bit(v: u16, weight: nat)
    requires weight > 0
  {
    v / weight % 2 == 1
  }

  function Flag(on: bool, flag: bv16): bv16 {
    if on then flag else 0
  }

  /** A 16-bit value as the word the code masks. */
  function Word(v: u16): bv16 {
    Flag(Bit(v, 0x8000), 0x8000) | Flag(Bit(v, 0x4000), 0x4000) | Flag(Bit(v, 0x2000), 0x2000)
    | Flag(Bit(v, 0x1000), 0x1000) | Flag(Bit(v, 0x800), 0x800) | Flag(Bit(v, 0x400), 0x400)
    | Flag(Bit(v, 0x200), 0x200) | Flag(Bit(v, 0x100), 0x100) | Flag(Bit(v, 0x80), 0x80) | Flag(Bit(v, 0x40), 0x40)
    | Flag(Bit(v, 0x20), 0x20) | Flag(Bit(v, 0x10), 0x10) | Flag(Bit(v, 8), 8) | Flag(Bit(v, 4), 4)
    | Flag(Bit(v, 2), 2) | Flag(Bit(v, 1), 1)
  }

  const RESERVED_MASK: bv16 := 0xFC00

  lemma MaskKeepsUpperFlags(
      a: bool, b: bool, c: bool, d: bool, e: bool, f: bool, g: bool, h: bool, i: bool, j: bool, k: bool, l: bool,
      m: bool, n: bool, o: bool, p: bool)
    ensures (Flag(a, 0x8000) | Flag(b, 0x4000) | Flag(c, 0x2000) | Flag(d, 0x1000) | Flag(e, 0x800) | Flag(f, 0x400)
             | Flag(g, 0x200) | Flag(h, 0x100) | Flag(i, 0x80) | Flag(j, 0x40) | Flag(k, 0x20) | Flag(l, 0x10)
             | Flag(m, 8) | Flag(n, 4) | Flag(o, 2) | Flag(p, 1)) & RESERVED_MASK == 0
            <==> !a && !b && !c && !d && !e && !f
  {
  }

  lemma SmallHasNoUpperBits(v: u16)
    ensures !Bit(v, 0x8000) && !Bit(v, 0x4000) && !Bit(v, 0x2000) && !Bit(v, 0x1000) && !Bit(v, 0x800) && !Bit(v, 0x400)
            <==> v < 0x400
  {
    assert v / 0x4000 / 2 == v / 0x8000 && v / 0x2000 / 2 == v / 0x4000 && v / 0x1000 / 2 == v / 0x2000;
    assert v / 0x800 / 2 == v / 0x1000 && v / 0x400 / 2 == v / 0x800;
  }

  /** The mask test of the code is a bound on the value. */
  lemma ReservedBitsAreClearExactlyBelow(v: u16)
    ensures Word(v) & RESERVED_MASK == 0 <==> v < 0x400
  {
    hide Bit;
    hide Flag;
    MaskKeepsUpperFlags(
      Bit(v, 0x8000), Bit(v, 0x4000), Bit(v, 0x2000), Bit(v, 0x1000), Bit(v, 0x800), Bit(v, 0x400), Bit(v, 0x200),
      Bit(v, 0x100), Bit(v, 0x80), Bit(v, 0x40), Bit(v, 0x20), Bit(v, 0x10), Bit(v, 8), Bit(v, 4), Bit(v, 2),
      Bit(v, 1));
    SmallHasNoUpperBits(v);
  }

  predicate PwmValueOk(period: u32, duty: u16) {
    duty <= 10000 && (period != 0 || duty == 0)
  }

  predicate PwmOk(channel: byte, channels: nat, data: seq<byte>) {
    channel < channels && |data| == 6 && PwmValueOk(ReadU32(data, 0), ReadU16(data, 4))
  }

  predicate CanFrameOk(data: seq<byte>, at: nat) {
    at + CAN_FRAME_SIZE <= |data| && ReadU16(data, at) <= 0x7FF && data[at + 2] <= 8 && data[at + 11] == 0
  }

  predicate CanFramesOk(data: seq<byte>) {
    && |data| % CAN_FRAME_SIZE == 0
    && forall at | 0 <= at < |data| && at % CAN_FRAME_SIZE == 0 :: CanFrameOk(data, at)
  }

  function Sum(lengths: seq<byte>): nat
    decreases |lengths|
  {
    if lengths == [] then 0 else Sum(lengths[..|lengths| - 1]) + (lengths[|lengths| - 1] as int)
  }

  predicate NoneZero(lengths: seq<byte>) {
    forall i | 0 <= i < |lengths| :: lengths[i] != 0
  }

  /** A packet count, that many nonzero packet lengths, and data of exactly their total. */
  predicate SpiTableOk(data: seq<byte>) {
    && data != []
    && var count := data[0] as int;
       && count != 0
       && |data| > 1 + count
       && NoneZero(data[1..1 + count])
       && Sum(data[1..1 + count]) == |data| - 1 - count
  }

  function Require(holds: bool): Status {
    if holds then Ok else ValidationFailed
  }

  function OperationFields(ctx: Context, peripheral: int, channel: byte, data: seq<byte>): Status {
    if |data| > ctx.maxVariable || data == [] then ValidationFailed
    else if peripheral == DIGITAL_OUTPUT then Require(DigitalBankOk(channel, data))
    else if peripheral == ANALOG_OUTPUT then Require(channel < ANALOG_OUTPUT_CHANNELS && |data| == 4)
    else if peripheral == PWM_OUTPUT then Require(PwmOk(channel, PWM_CHANNELS, data))
    else if peripheral == UART then Require(channel < BUS_CHANNELS)
    else if peripheral == SPI then Require(channel < BUS_CHANNELS && SpiTableOk(data))
    else if peripheral == CAN then Require(channel < BUS_CHANNELS && CanFramesOk(data))
    else if peripheral == I2C then NotImplemented
    else ValidationFailed
  }

  function CaptureFields(ctx: Context, peripheral: int, channel: byte, data: seq<byte>): Status {
    if |data| > ctx.maxVariable || data == [] then ValidationFailed
    else if peripheral == DIGITAL_INPUT then Require(DigitalBankOk(channel, data))
    else if peripheral == ANALOG_INPUT then Require(channel < ANALOG_INPUT_CHANNELS && |data| == 4)
    else if peripheral == PWM_INPUT then Require(PwmOk(channel, PWM_CHANNELS, data))
    else if peripheral == UART then Require(channel < BUS_CHANNELS)
    else if peripheral == SPI then Require(channel < BUS_CHANNELS)
    else if peripheral == CAN then Require(channel < BUS_CHANNELS && CanFramesOk(data))
    else if peripheral == I2C then NotImplemented
    else ValidationFailed
  }

  function Fields(ctx: Context, kind: Kind, peripheral: int, channel: byte, data: seq<byte>): Status {
    match kind
    case Operations => OperationFields(ctx, peripheral, channel, data)
    case Captures => CaptureFields(ctx, peripheral, channel, data)
  }

  lemma OneMoreLength(data: seq<byte>, packet: nat)
    requires 1 + packet < |data|
    ensures NoneZero(data[1..2 + packet]) <==> NoneZero(data[1..1 + packet]) && data[1 + packet] != 0
    ensures Sum(data[1..2 + packet]) == Sum(data[1..1 + packet]) + data[1 + packet] as int
  {
    var more := data[1..2 + packet];
    assert more[..packet] == data[1..1 + packet] && more[packet] == data[1 + packet];
    assert more == data[1..1 + packet] + [data[1 + packet]];
  }

  method ValidateSpiTable(data: seq<byte>) returns (ok: bool)
    requires data != []
    ensures ok <==> SpiTableOk(data)
  {
    var packetCount := data[0] as int;
    if packetCount == 0 || |data| <= 1 + packetCount {
      return false;
    }
    var expected := |data| - 1 - packetCount;
    var packetLengthSum := 0;
    var packet := 0;
    while packet < packetCount
      invariant 0 <= packet <= packetCount
      invariant NoneZero(data[1..1 + packet])
      invariant packetLengthSum == Sum(data[1..1 + packet])
    {
      var packetLength := data[1 + packet] as int;
      if packetLength == 0 {
        assert data[1..1 + packetCount][packet] == 0;
        return false;
      }
      OneMoreLength(data, packet);
      packetLengthSum := packetLengthSum + packetLength;
      packet := packet + 1;
    }
    return packetLengthSum == expected;
  }

  method ValidateCanFrames(data: seq<byte>) returns (ok: bool)
    ensures ok <==> CanFramesOk(data)
  {
    if |data| % CAN_FRAME_SIZE != 0 {
      return false;
    }
    var f := 0;
    while f < |data|
      invariant 0 <= f <= |data| && f % CAN_FRAME_SIZE == 0
      invariant forall at | 0 <= at < f && at % CAN_FRAME_SIZE == 0 :: CanFrameOk(data, at)
    {
      assert f + CAN_FRAME_SIZE <= |data|;
      var id := ReadU16(data, f);
      if id > 0x7FF || data[f + 2] > 8 || data[f + 11] != 0 {
        assert !CanFrameOk(data, f);
        return false;
      }
      assert CanFrameOk(data, f);
      f := f + CAN_FRAME_SIZE;
    }
    return true;
  }

  method ValidateDigitalBank(channel: byte, data: seq<byte>) returns (ok: bool)
    ensures ok <==> DigitalBankOk(channel, data)
  {
    if channel != 0 || |data| != 2 {
      return false;
    }
    var mask := ReadU16(data, 0);
    ReservedBitsAreClearExactlyBelow(mask);
    return Word(mask) & RESERVED_MASK == 0;
  }

  method ValidatePwm(channel: byte, channels: nat, data: seq<byte>) returns (ok: bool)
    ensures ok <==> PwmOk(channel, channels, data)
  {
    if channel as int >= channels || |data| != 6 {
      return false;
    }
    var period, duty := ReadU32(data, 0), ReadU16(data, 4);
    return duty <= 10000 && (period != 0 || duty == 0);
  }

  method ValidateOperationFields(ctx: Context, peripheral: int, channel: byte, data: seq<byte>)
    returns (status: Status)
    ensures status == OperationFields(ctx, peripheral, channel, data)
  {
    if |data| > ctx.maxVariable || |data| == 0 {
      return ValidationFailed;
    }
    var ok := false;
    if peripheral == DIGITAL_OUTPUT {
      ok := ValidateDigitalBank(channel, data);
    } else if peripheral == ANALOG_OUTPUT {
      ok := channel < ANALOG_OUTPUT_CHANNELS && |data| == 4;
    } else if peripheral == PWM_OUTPUT {
      ok := ValidatePwm(channel, PWM_CHANNELS, data);
    } else if peripheral == UART {
      ok := channel < BUS_CHANNELS;
    } else if peripheral == SPI {
      if channel < BUS_CHANNELS {
        ok := ValidateSpiTable(data);
      }
    } else if peripheral == CAN {
      if channel < BUS_CHANNELS {
        ok := ValidateCanFrames(data);
      }
    } else if peripheral == I2C {
      return NotImplemented;
    }
    return if ok then Ok else ValidationFailed;
  }

  method ValidateCaptureFields(ctx: Context, peripheral: int, channel: byte, data: seq<byte>)
    returns (status: Status)
    ensures status == CaptureFields(ctx, peripheral, channel, data)
  {
    if |data| > ctx.maxVariable || |data| == 0 {
      return ValidationFailed;
    }
    var ok := false;
    if peripheral == DIGITAL_INPUT {
      ok := ValidateDigitalBank(channel, data);
    } else if peripheral == ANALOG_INPUT {
      ok := channel < ANALOG_INPUT_CHANNELS && |data| == 4;
    } else if peripheral == PWM_INPUT {
      ok := ValidatePwm(channel, PWM_CHANNELS, data);
    } else if peripheral == UART || peripheral == SPI {
      ok := channel < BUS_CHANNELS;
    } else if peripheral == CAN {
      if channel < BUS_CHANNELS {
        ok := ValidateCanFrames(data);
      }
    } else if peripheral == I2C {
      return NotImplemented;
    }
    return if ok then Ok else ValidationFailed;
  }

  method ValidateFields(ctx: Context, kind: Kind, peripheral: int, channel: byte, data: seq<byte>)
    returns (status: Status)
    ensures status == Fields(ctx, kind, peripheral, channel, data)
  {
    if kind == Operations {
      status := ValidateOperationFields(ctx, peripheral, channel, data);
    } else {
      status := ValidateCaptureFields(ctx, peripheral, channel, data);
    }
  }

  // ---------------------------------------------------------------------------
  // The duplicate bitmask
  // ---------------------------------------------------------------------------

  type Pair = (int, int)

  predicate PairInRange(peripheral: int, channel: int) {
    0 <= peripheral < MASK_COUNT && 0 <= channel < CHANNEL_LIMIT
  }

  predicate CanMark(pairs: set<Pair>, peripheral: int, channel: int) {
    PairInRange(peripheral, channel) && (peripheral, channel) !in pairs
  }

  function ChannelBit(channel: nat): bv16
    requires channel < CHANNEL_LIMIT
  {
    1 << channel
  }

  predicate IsMarked(masks: seq<bv16>, peripheral: nat, channel: nat)
    requires peripheral < |masks| && channel < CHANNEL_LIMIT
  {
    masks[peripheral] & ChannelBit(channel) != 0
  }

  /** The masks hold exactly these peripheral and channel pairs. */
  ghost predicate MasksHold(masks: seq<bv16>, pairs: set<Pair>) {
    && |masks| == MASK_COUNT
    && (forall p, c :: PairInRange(p, c) ==> (IsMarked(masks, p, c) <==> (p, c) in pairs))
    && (forall p, c :: (p, c) in pairs ==> PairInRange(p, c))
  }

  lemma BitsAreDistinct(mask: bv16, c: nat, d: nat)
    requires c < CHANNEL_LIMIT && d < CHANNEL_LIMIT
    ensures (mask | ChannelBit(c)) & ChannelBit(d) != 0 <==> c == d || mask & ChannelBit(d) != 0
  {
  }

  /** Marks a pair once; a second mark, or a pair out of range, is refused and changes nothing. */
  method RecordPairMark(seen: array<bv16>, peripheral: int, channel: byte, ghost pairs: set<Pair>)
    returns (status: Status)
    requires MasksHold(seen[..], pairs)
    modifies seen
    ensures status == if CanMark(pairs, peripheral, channel) then Ok else ValidationFailed
    ensures MasksHold(seen[..], if status == Ok then pairs + {(peripheral, channel as int)} else pairs)
  {
    if peripheral < 0 || peripheral >= seen.Length || channel >= CHANNEL_LIMIT {
      return ValidationFailed;
    }
    var mask := ChannelBit(channel);
    assert IsMarked(seen[..], peripheral, channel) <==> (peripheral, channel as int) in pairs;
    if seen[peripheral] & mask != 0 {
      return ValidationFailed;
    }
    ghost var before := seen[..];
    seen[peripheral] := seen[peripheral] | mask;
    MarkAdds(before, peripheral, channel, pairs);
    return Ok;
  }

  lemma MarkAdds(masks: seq<bv16>, peripheral: nat, channel: nat, pairs: set<Pair>)
    requires MasksHold(masks, pairs) && PairInRange(peripheral, channel)
    ensures MasksHold(masks[peripheral := masks[peripheral] | ChannelBit(channel)], pairs + {(peripheral, channel)})
  {
    var after := masks[peripheral := masks[peripheral] | ChannelBit(channel)];
    forall p, c | PairInRange(p, c)
      ensures IsMarked(after, p, c) <==> (p, c) in pairs + {(peripheral, channel)}
    {
      assert IsMarked(masks, p, c) <==> (p, c) in pairs;
      if p == peripheral {
        BitsAreDistinct(masks[p], channel, c);
      }
    }
  }

  lemma NothingMarked(masks: seq<bv16>)
    requires |masks| == MASK_COUNT && forall p :: 0 <= p < |masks| ==> masks[p] == 0
    ensures MasksHold(masks, {})
  {
    forall p, c | PairInRange(p, c)
      ensures !IsMarked(masks, p, c)
    {
      ZeroHasNoBits(ChannelBit(c));
    }
  }

  lemma ZeroHasNoBits(bit: bv16)
    ensures (0 as bv16) & bit == 0
  {
  }

  // ---------------------------------------------------------------------------
  // Lists of records
  // ---------------------------------------------------------------------------

  /** The verdict on a record list, given the pairs already seen: pair check, then fields, in order. */
  function ListVerdict(ctx: Context, kind: Kind, records: seq<Record>, pairs: set<Pair>): Status
    decreases |records|
  {
    if records == [] then Ok
    else
      var r := records[0];
      if !CanMark(pairs, r.peripheral, r.channel) then ValidationFailed
      else
        var status := Fields(ctx, kind, r.peripheral, r.channel, r.data);
        if status != Ok then status
        else ListVerdict(ctx, kind, records[1..], pairs + {(r.peripheral, r.channel as int)})
  }

  /** The loop shared in form by the two list validators. */
  method ValidateList(ctx: Context, kind: Kind, records: seq<Record>) returns (status: Status)
    ensures status == ListVerdict(ctx, kind, records, {})
  {
    var seen := new bv16[MASK_COUNT](_ => 0);
    NothingMarked(seen[..]);
    ghost var pairs: set<Pair> := {};
    var i := 0;
    while i < |records|
      invariant 0 <= i <= |records|
      invariant MasksHold(seen[..], pairs)
      invariant ListVerdict(ctx, kind, records, {}) == ListVerdict(ctx, kind, records[i..], pairs)
    {
      var r := records[i];
      assert records[i..][0] == r && records[i..][1..] == records[i + 1..];
      status := RecordPairMark(seen, r.peripheral, r.channel, pairs);
      if status != Ok {
        return;
      }
      pairs := pairs + {(r.peripheral, r.channel as int)};
      status := ValidateFields(ctx, kind, r.peripheral, r.channel, r.data);
      if status != Ok {
        return;
      }
      i := i + 1;
    }
    return Ok;
  }
}

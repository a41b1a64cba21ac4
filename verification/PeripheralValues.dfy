/**
 What the data of a record means: the typed value each peripheral carries, spelled into bytes. The field rules
 are proved to accept exactly the spellings of these values, each of one value only.
 */
module PeripheralValues {
  import opened Wire
  import opened LittleEndian
  import opened Records
  import C = CanFrames
  import S = SpiPackets

  datatype Value =
    | Pins(levels: nat)
    | Microvolts(amount: nat)
    | Pulse(periodNanoseconds: nat, dutyPermyriad: nat)
    | Stream(bytes: seq<byte>)
    | Packets(packets: seq<seq<byte>>)
    | Frames(frames: seq<C.Frame>)

  /** Ten pins, a 32-bit amount, a duty of at most 100 % and none without a period, and nothing empty. */
  ghost predicate Sensible(v: Value) {
    match v
    case Pins(levels) => levels < 1024
    case Microvolts(amount) => amount < 0x1_0000_0000
    case Pulse(period, duty) => period < 0x1_0000_0000 && duty <= 10000 && (period == 0 ==> duty == 0)
    case Stream(bytes) => bytes != []
    case Packets(packets) => S.ValidPackets(packets)
    case Frames(frames) => frames != [] && C.AllValid(frames)
  }

  ghost function Spelled(v: Value): seq<byte>
    requires Sensible(v)
  {
    match v
    case Pins(levels) => Digits(2, levels)
    case Microvolts(amount) => Digits(4, amount)
    case Pulse(period, duty) => Digits(4, period) + Digits(2, duty)
    case Stream(bytes) => bytes
    case Packets(packets) => S.Pack(packets)
    case Frames(frames) => C.Pack(frames)
  }

  /** Which values each peripheral carries, on which channels, to the rig and back. */
  predicate Carries(kind: Kind, peripheral: int, channel: int, v: Value) {
    match (kind, peripheral)
    case (Captures, 1) => channel == 0 && v.Pins?
    case (Operations, 2) => channel == 0 && v.Pins?
    case (Captures, 3) => 0 <= channel < 2 && v.Microvolts?
    case (Operations, 4) => 0 <= channel < 6 && v.Microvolts?
    case (Captures, 5) => 0 <= channel < 2 && v.Pulse?
    case (Operations, 6) => 0 <= channel < 2 && v.Pulse?
    case (_, 16) => 0 <= channel < 2 && v.Stream?
    case (Operations, 17) => 0 <= channel < 2 && v.Packets?
    case (Captures, 17) => 0 <= channel < 2 && v.Stream?
    case (_, 19) => 0 <= channel < 2 && v.Frames?
    case _ => false
  }

  ghost predicate Spells(kind: Kind, peripheral: int, channel: int, v: Value, data: seq<byte>) {
    Carries(kind, peripheral, channel, v) && Sensible(v) && Spelled(v) == data
  }

  lemma PinsAreSpelled(channel: byte, data: seq<byte>)
    ensures DigitalBankOk(channel, data)
            <==> channel == 0 && exists levels :: levels < 1024 && Spelled(Pins(levels)) == data
  {
    if DigitalBankOk(channel, data) {
      U16RoundTrip(data, 0, ReadU16(data, 0));
      FieldsAreDigits(ReadU16(data, 0), 0);
      assert data[0..2] == data;
      assert Spelled(Pins(ReadU16(data, 0))) == data;
    }
    forall levels: nat | levels < 1024 && Spelled(Pins(levels)) == data
      ensures |data| == 2 && ReadU16(data, 0) == levels
    {
      FieldsAreDigits(levels, 0);
      assert data[0..2] == data;
      U16RoundTrip(data, 0, levels);
    }
  }

  lemma AmountIsSpelled(data: seq<byte>)
    ensures |data| == 4 <==> exists amount :: amount < 0x1_0000_0000 && Spelled(Microvolts(amount)) == data
  {
    if |data| == 4 {
      var amount := ReadU32(data, 0);
      U32RoundTrip(data, 0, amount);
      FieldsAreDigits(0, amount);
      assert data[0..4] == data;
      assert Spelled(Microvolts(amount)) == data;
    }
  }

  lemma PulseReads(data: seq<byte>, period: u32, duty: u16)
    requires |data| == 6
    ensures data == Digits(4, period) + Digits(2, duty) <==> ReadU32(data, 0) == period && ReadU16(data, 4) == duty
  {
    FieldsAreDigits(duty, period);
    U32RoundTrip(data, 0, period);
    U16RoundTrip(data, 4, duty);
    assert data == data[0..4] + data[4..6];
    assert data == Digits(4, period) + Digits(2, duty)
           ==> data[0..4] == Digits(4, period) && data[4..6] == Digits(2, duty);
  }

  lemma PulseIsSpelled(channel: byte, data: seq<byte>)
    ensures PwmOk(channel, 2, data)
            <==> channel < 2
                 && exists period, duty :: Sensible(Pulse(period, duty)) && Spelled(Pulse(period, duty)) == data
  {
    if PwmOk(channel, 2, data) {
      var period, duty := ReadU32(data, 0), ReadU16(data, 4);
      PulseReads(data, period, duty);
      assert Sensible(Pulse(period, duty)) && Spelled(Pulse(period, duty)) == data;
    }
    forall period: nat, duty: nat | Sensible(Pulse(period, duty)) && Spelled(Pulse(period, duty)) == data
      ensures |data| == 6 && ReadU32(data, 0) == period && ReadU16(data, 4) == duty
    {
      PulseReads(data, period, duty);
    }
  }

  /** The value spelled by data that the field rules accept. */
  lemma AcceptedIsSpelled(ctx: Context, kind: Kind, peripheral: int, channel: byte, data: Span)
    returns (v: Value)
    requires Fields(ctx, kind, peripheral, channel, data) == Ok
    ensures Spells(kind, peripheral, channel, v, data)
  {
    hide Digits;
    hide S.ValidPackets;
    hide S.Pack;
    hide SpiTableOk;
    hide CanFramesOk;
    hide C.Pack;
    if peripheral == 1 || peripheral == 2 {
      PinsAreSpelled(channel, data);
      var levels: nat :| levels < 1024 && Spelled(Pins(levels)) == data;
      v := Pins(levels);
    } else if peripheral == 3 || peripheral == 4 {
      AmountIsSpelled(data);
      var amount: nat :| amount < 0x1_0000_0000 && Spelled(Microvolts(amount)) == data;
      v := Microvolts(amount);
    } else if peripheral == 5 || peripheral == 6 {
      PulseIsSpelled(channel, data);
      var period, duty :| Sensible(Pulse(period, duty)) && Spelled(Pulse(period, duty)) == data;
      v := Pulse(period, duty);
    } else if peripheral == 16 || (peripheral == 17 && kind == Captures) {
      v := Stream(data);
    } else if peripheral == 17 {
      S.UnpackThenPack(data);
      v := Packets(S.Unpack(data));
    } else {
      C.UnpackThenPack(data);
      v := Frames(C.Unpack(data));
    }
  }

  lemma SpelledIsAccepted(ctx: Context, kind: Kind, peripheral: int, channel: byte, v: Value)
    requires Carries(kind, peripheral, channel, v) && Sensible(v) && |Spelled(v)| <= ctx.maxVariable
    ensures Fields(ctx, kind, peripheral, channel, Spelled(v)) == Ok
  {
    var data := Spelled(v);
    match v
    case Pins(levels) => PinsAreSpelled(channel, data);
    case Microvolts(amount) => AmountIsSpelled(data);
    case Pulse(period, duty) => PulseIsSpelled(channel, data);
    case Stream(_) =>
    case Packets(packets) => S.PackThenUnpack(packets);
    case Frames(frames) => C.PackThenUnpack(frames);
  }

  /**
   The field rules accept a record exactly when its data is within the size limit and spells a sensible value
   that its peripheral carries on its channel in that direction.
   */
  lemma AcceptedExactlyWhenSpelled(ctx: Context, kind: Kind, peripheral: int, channel: byte, data: Span)
    ensures Fields(ctx, kind, peripheral, channel, data) == Ok
            <==> |data| <= ctx.maxVariable && exists v :: Spells(kind, peripheral, channel, v, data)
  {
    if Fields(ctx, kind, peripheral, channel, data) == Ok {
      var v := AcceptedIsSpelled(ctx, kind, peripheral, channel, data);
    }
    if |data| <= ctx.maxVariable {
      forall v | Spells(kind, peripheral, channel, v, data)
        ensures Fields(ctx, kind, peripheral, channel, data) == Ok
      {
        SpelledIsAccepted(ctx, kind, peripheral, channel, v);
      }
    }
  }

  /** The status of a refused record: I2C is known but not implemented, and everything else is invalid. */
  lemma RefusedFields(ctx: Context, kind: Kind, peripheral: int, channel: byte, data: Span)
    ensures var status := Fields(ctx, kind, peripheral, channel, data);
            && (status == NotImplemented <==> peripheral == 18 && 1 <= |data| <= ctx.maxVariable)
            && status in {Ok, NotImplemented, ValidationFailed}
  {
  }

  /** Data spells at most one value for its peripheral. */
  lemma ValueIsUnique(kind: Kind, peripheral: int, channel: int, one: Value, two: Value, data: seq<byte>)
    requires Spells(kind, peripheral, channel, one, data) && Spells(kind, peripheral, channel, two, data)
    ensures one == two
  {
    FieldRanges();
    match one
    case Pins(levels) => DigitsAreUnique(2, levels, two.levels);
    case Microvolts(amount) => DigitsAreUnique(4, amount, two.amount);
    case Pulse(period, duty) =>
      PulseReads(data, period, duty);
      PulseReads(data, two.periodNanoseconds, two.dutyPermyriad);
    case Stream(_) =>
    case Packets(packets) => S.PacketsAreUnique(packets, two.packets);
    case Frames(frames) => C.FramesAreUnique(frames, two.frames);
  }
}

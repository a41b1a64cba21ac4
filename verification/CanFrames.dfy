/**
 The meaning of a CAN payload: standard frames back to back, twelve bytes each. A frame is an identifier of
 eleven bits, a data length of up to eight, eight data bytes whatever the length, and a reserved zero.
 */
module CanFrames {
  import opened Wire
  import opened LittleEndian
  import opened Records

  datatype Frame = Frame(id: nat, length: nat, data: seq<byte>)

  predicate ValidFrame(f: Frame) {
    f.id <= 0x7FF && f.length <= 8 && |f.data| == 8
  }

  ghost predicate AllValid(frames: seq<Frame>) {
    forall i :: 0 <= i < |frames| ==> ValidFrame(frames[i])
  }

  function FrameBytes(f: Frame): (s: seq<byte>)
    requires ValidFrame(f)
    ensures |s| == 12
  {
    Digits(2, f.id) + [f.length] + f.data + [0]
  }

  ghost function Pack(frames: seq<Frame>): (payload: seq<byte>)
    requires AllValid(frames)
    ensures |payload| == 12 * |frames|
    decreases |frames|
  {
    if frames == [] then []
    else
      assert ValidFrame(frames[0]);
      FrameBytes(frames[0]) + Pack(frames[1..])
  }

  function Unpack(payload: seq<byte>): (frames: seq<Frame>)
    requires |payload| % 12 == 0
    decreases |payload|
  {
    if payload == [] then []
    else [Frame(ReadU16(payload, 0), payload[2] as int, payload[3..11])] + Unpack(payload[12..])
  }

  lemma FirstFrame(payload: seq<byte>, f: Frame)
    requires |payload| >= 12 && ValidFrame(f)
    ensures payload[..12] == FrameBytes(f)
            <==> f == Frame(ReadU16(payload, 0), payload[2] as int, payload[3..11]) && payload[11] == 0
  {
    FieldsAreDigits(f.id, 0);
    U16RoundTrip(payload, 0, f.id);
    var head := payload[..12];
    assert head == payload[0..2] + [payload[2]] + payload[3..11] + [payload[11]];
    assert FrameBytes(f)[0..2] == Digits(2, f.id) && FrameBytes(f)[3..11] == f.data;
  }

  lemma FramesFromFirst(payload: seq<byte>)
    requires payload != [] && |payload| % 12 == 0
    ensures CanFramesOk(payload) <==> CanFrameOk(payload, 0) && CanFramesOk(payload[12..])
  {
    var rest := payload[12..];
    forall at | 0 <= at < |rest| && at % 12 == 0
      ensures CanFrameOk(rest, at) <==> CanFrameOk(payload, at + 12)
    {
    }
    if CanFrameOk(payload, 0) && CanFramesOk(rest) {
      forall at | 0 <= at < |payload| && at % 12 == 0
        ensures CanFrameOk(payload, at)
      {
        if at > 0 {
          assert CanFrameOk(rest, at - 12);
        }
      }
    }
  }

  lemma {:induction false} UnpackThenPack(payload: seq<byte>)
    requires CanFramesOk(payload)
    ensures AllValid(Unpack(payload)) && Pack(Unpack(payload)) == payload
    decreases |payload|
  {
    if payload == [] {
    } else {
      FramesFromFirst(payload);
      var frames, first := Unpack(payload), Unpack(payload)[0];
      UnpackThenPack(payload[12..]);
      assert frames[1..] == Unpack(payload[12..]);
      assert ValidFrame(first);
      FirstFrame(payload, first);
      assert payload == payload[..12] + payload[12..];
    }
  }

  lemma {:induction false} PackThenUnpack(frames: seq<Frame>)
    requires AllValid(frames)
    ensures CanFramesOk(Pack(frames)) && Unpack(Pack(frames)) == frames
    decreases |frames|
  {
    if frames == [] {
    } else {
      var payload := Pack(frames);
      assert ValidFrame(frames[0]);
      PackThenUnpack(frames[1..]);
      assert payload[..12] == FrameBytes(frames[0]) && payload[12..] == Pack(frames[1..]);
      FirstFrame(payload, frames[0]);
      FramesFromFirst(payload);
      hide CanFramesOk;
      hide FrameBytes;
    }
  }

  /** A payload is well-formed exactly when it packs valid frames. */
  lemma AcceptedExactlyWhenFrames(payload: seq<byte>)
    ensures CanFramesOk(payload) <==> exists frames :: AllValid(frames) && Pack(frames) == payload
  {
    if CanFramesOk(payload) {
      UnpackThenPack(payload);
    }
    forall frames | AllValid(frames) && Pack(frames) == payload
      ensures CanFramesOk(payload)
    {
      PackThenUnpack(frames);
    }
  }

  lemma FramesAreUnique(one: seq<Frame>, two: seq<Frame>)
    requires AllValid(one) && AllValid(two) && Pack(one) == Pack(two)
    ensures one == two
  {
    PackThenUnpack(one);
    PackThenUnpack(two);
  }
}

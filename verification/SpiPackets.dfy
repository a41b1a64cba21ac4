/**
 The meaning of an SPI operation payload: a list of packets, packed as a count, a table of lengths and
 the packet bytes back to back.
 */
module SpiPackets {
  import opened Sequences
  import opened Wire
  import opened Records

  ghost predicate PacketFits(packet: seq<byte>) {
    1 <= |packet| <= 255
  }

  ghost predicate AllFit(packets: seq<seq<byte>>) {
    forall i :: 0 <= i < |packets| ==> PacketFits(packets[i])
  }

  /** What a payload can spell: one to 255 packets of one to 255 bytes each. */
  ghost predicate ValidPackets(packets: seq<seq<byte>>) {
    1 <= |packets| <= 255 && AllFit(packets)
  }

  ghost function Lengths(packets: seq<seq<byte>>): (lengths: seq<byte>)
    requires AllFit(packets)
    ensures |lengths| == |packets|
    decreases |packets|
  {
    if packets == [] then []
    else
      var last := |packets| - 1;
      assert PacketFits(packets[last]);
      Lengths(packets[..last]) + [|packets[last]|]
  }

  ghost function Pack(packets: seq<seq<byte>>): seq<byte>
    requires ValidPackets(packets)
  {
    [|packets|] + Lengths(packets) + Flatten(packets)
  }

  /** Cut the data back into packets of the tabled lengths. */
  function Cut(lengths: seq<byte>, data: seq<byte>): (packets: seq<seq<byte>>)
    requires Sum(lengths) == |data|
    ensures |packets| == |lengths|
    decreases |lengths|
  {
    if lengths == [] then []
    else
      var last := |lengths| - 1;
      var at := |data| - (lengths[last] as int);
      Cut(lengths[..last], data[..at]) + [data[at..]]
  }

  function Unpack(payload: seq<byte>): seq<seq<byte>>
    requires SpiTableOk(payload)
  {
    var count := payload[0] as int;
    Cut(payload[1..1 + count], payload[1 + count..])
  }

  lemma {:induction false} CutIsExact(lengths: seq<byte>, data: seq<byte>)
    requires Sum(lengths) == |data| && NoneZero(lengths)
    ensures AllFit(Cut(lengths, data))
    ensures Lengths(Cut(lengths, data)) == lengths
    ensures Flatten(Cut(lengths, data)) == data
    decreases |lengths|
  {
    if lengths == [] {
    } else {
      var last := |lengths| - 1;
      var at := |data| - (lengths[last] as int);
      CutIsExact(lengths[..last], data[..at]);
      var init := Cut(lengths[..last], data[..at]);
      var packets := Cut(lengths, data);
      assert packets == init + [data[at..]] && packets[..last] == init;
      assert PacketFits(data[at..]);
      assert lengths == lengths[..last] + [lengths[last]];
      assert data[..at] + data[at..] == data;
    }
  }

  lemma {:induction false} PackedIsExact(packets: seq<seq<byte>>)
    requires AllFit(packets)
    ensures NoneZero(Lengths(packets))
    ensures Sum(Lengths(packets)) == |Flatten(packets)|
    ensures Cut(Lengths(packets), Flatten(packets)) == packets
    decreases |packets|
  {
    if packets == [] {
    } else {
      var last := |packets| - 1;
      PackedIsExact(packets[..last]);
      assert PacketFits(packets[last]);
      var lengths, data := Lengths(packets), Flatten(packets);
      assert lengths[..last] == Lengths(packets[..last]);
      var at := |data| - |packets[last]|;
      assert data[..at] == Flatten(packets[..last]) && data[at..] == packets[last];
      assert packets[..last] + [packets[last]] == packets;
    }
  }

  /** Unpacking an accepted payload gives packets that pack back to it. */
  lemma UnpackThenPack(payload: seq<byte>)
    requires SpiTableOk(payload)
    ensures ValidPackets(Unpack(payload)) && Pack(Unpack(payload)) == payload
  {
    var count := payload[0] as int;
    CutIsExact(payload[1..1 + count], payload[1 + count..]);
    assert payload == [payload[0]] + payload[1..1 + count] + payload[1 + count..];
  }

  /** Packing any valid packets gives an accepted payload, and those packets are the only ones it spells. */
  lemma PackThenUnpack(packets: seq<seq<byte>>)
    requires ValidPackets(packets)
    ensures SpiTableOk(Pack(packets)) && Unpack(Pack(packets)) == packets
  {
    var payload := Pack(packets);
    PackedIsExact(packets);
    assert payload[1..1 + |packets|] == Lengths(packets);
    assert payload[1 + |packets|..] == Flatten(packets);
    assert PacketFits(packets[|packets| - 1]);
  }

  /** On a valid channel and within the size limit, a payload is accepted exactly when it spells packets. */
  lemma AcceptedExactlyWhenPackets(ctx: Context, channel: byte, payload: Span)
    ensures OperationFields(ctx, SPI, channel, payload) == Ok
            <==> channel < BUS_CHANNELS && |payload| <= ctx.maxVariable
                 && exists packets :: ValidPackets(packets) && Pack(packets) == payload
  {
    if payload != [] && SpiTableOk(payload) {
      UnpackThenPack(payload);
    }
    forall packets | ValidPackets(packets) && Pack(packets) == payload
      ensures SpiTableOk(payload)
    {
      PackThenUnpack(packets);
    }
  }

  lemma PacketsAreUnique(one: seq<seq<byte>>, two: seq<seq<byte>>)
    requires ValidPackets(one) && ValidPackets(two) && Pack(one) == Pack(two)
    ensures one == two
  {
    PackThenUnpack(one);
    PackThenUnpack(two);
  }
}

/**
 The bounded delimiter parser: it finds zero-delimited bodies in a byte stream.

 The class holds the source's state and updates it in place. Each method is tied to a pure step
 function on `Phase`; the module `StreamSplit` proves what that step function does over whole runs.
 */
module StreamParser {
  import opened TransportTypes
  import opened Wire

  datatype PushResult = NeedMoreData | BodyReady | Discarding | DiscardedBody | Error

  /** What a valid parser state stands for. */
  datatype Phase = Collecting(body: seq<byte>) | Holding(body: seq<byte>) | Skipping

  /** One stream byte. */
  function Step(capacity: nat, phase: Phase, b: byte): (Phase, PushResult) {
    match phase
    case Holding(_) => (phase, BodyReady)
    case Skipping => if b == 0 then (Collecting([]), DiscardedBody) else (Skipping, Discarding)
    case Collecting(body) =>
      if b == 0 then
        if body == [] then (phase, NeedMoreData) else (Holding(body), BodyReady)
      else if |body| == capacity then (Skipping, Discarding)
      else (Collecting(body + [b]), NeedMoreData)
  }

  datatype Pushed = Pushed(phase: Phase, result: PushResult, consumed: nat)

  predicate Stops(result: PushResult) {
    result == BodyReady || result == DiscardedBody
  }

  /** A chunk of bytes, taken up to and including the first byte whose result must be reported. */
  function PushChunk(capacity: nat, phase: Phase, chunk: seq<byte>): (p: Pushed)
    ensures p.consumed <= |chunk|
  {
    if phase.Holding? then Pushed(phase, BodyReady, 0) else PushFrom(capacity, phase, chunk, NeedMoreData)
  }

  function PushFrom(capacity: nat, phase: Phase, chunk: seq<byte>, last: PushResult): (p: Pushed)
    ensures p.consumed <= |chunk|
    decreases |chunk|
  {
    if chunk == [] then Pushed(phase, last, 0)
    else
      var (next, result) := Step(capacity, phase, chunk[0]);
      if Stops(result) then Pushed(next, result, 1)
      else
        var rest := PushFrom(capacity, next, chunk[1..], result);
        rest.(consumed := rest.consumed + 1)
  }

  class Parser {
    var scratch: array?<byte>
    var accumulatedSize: nat
    var bodyReady: byte
    var discarding: byte

    /** The check the source makes before every operation. */
    predicate StateIsValid()
      reads this
    {
      && scratch != null
      && scratch.Length != 0
      && accumulatedSize <= scratch.Length
      && bodyReady <= 1
      && discarding <= 1
      && !(bodyReady != 0 && discarding != 0)
      && !(bodyReady != 0 && accumulatedSize == 0)
      && !(discarding != 0 && accumulatedSize != 0)
    }

    function Capacity(): nat
      requires scratch != null
      reads this
    {
      scratch.Length
    }

    function CurrentPhase(): Phase
      requires StateIsValid()
      reads this, scratch
    {
      if bodyReady != 0 then Holding(scratch[..accumulatedSize])
      else if discarding != 0 then Skipping
      else Collecting(scratch[..accumulatedSize])
    }

    constructor ()
      ensures scratch == null && accumulatedSize == 0 && bodyReady == 0 && discarding == 0
    {
      scratch := null;
      accumulatedSize, bodyReady, discarding := 0, 0, 0;
    }

    method Init(buffer: array<byte>) returns (status: Status)
      modifies this
      ensures status == if buffer.Length == 0 then InvalidArgument else Ok
      ensures status == Ok ==> StateIsValid() && scratch == buffer && CurrentPhase() == Collecting([])
      ensures status != Ok ==> unchanged(this)
    {
      if buffer.Length == 0 {
        return InvalidArgument;
      }
      scratch := buffer;
      accumulatedSize, bodyReady, discarding := 0, 0, 0;
      return Ok;
    }

    method PushByte(b: byte) returns (result: PushResult)
      modifies this, scratch
      ensures scratch == old(scratch)
      ensures !old(StateIsValid()) ==> result == Error && unchanged(this) && (scratch != null ==> unchanged(scratch))
      ensures old(StateIsValid()) ==>
                && StateIsValid()
                && (CurrentPhase(), result) == Step(Capacity(), old(CurrentPhase()), b)
      ensures old(StateIsValid() && bodyReady != 0) ==> unchanged(this) && (scratch != null ==> unchanged(scratch))
    {
      if !StateIsValid() {
        return Error;
      }
      if bodyReady != 0 {
        return BodyReady;
      }
      if discarding != 0 {
        if b == 0 {
          discarding := 0;
          return DiscardedBody;
        }
        return Discarding;
      }
      if b == 0 {
        if accumulatedSize == 0 {
          return NeedMoreData;
        }
        bodyReady := 1;
        return BodyReady;
      }
      if accumulatedSize == scratch.Length {
        accumulatedSize := 0;
        discarding := 1;
        return Discarding;
      }
      scratch[accumulatedSize] := b;
      accumulatedSize := accumulatedSize + 1;
      assert scratch[..accumulatedSize] == old(scratch[..accumulatedSize]) + [b];
      return NeedMoreData;
    }

    method PushBytes(data: seq<byte>) returns (result: PushResult, bytesConsumed: nat)
      modifies this, scratch
      ensures scratch == old(scratch) && bytesConsumed <= |data|
      ensures !old(StateIsValid()) ==>
                result == Error && bytesConsumed == 0 && unchanged(this) && (scratch != null ==> unchanged(scratch))
      ensures old(StateIsValid()) ==>
                && StateIsValid()
                && Pushed(CurrentPhase(), result, bytesConsumed) == PushChunk(Capacity(), old(CurrentPhase()), data)
      ensures old(StateIsValid() && bodyReady != 0) ==> unchanged(this) && (scratch != null ==> unchanged(scratch))
    {
      result, bytesConsumed := NeedMoreData, 0;
      if !StateIsValid() {
        return Error, 0;
      }
      if bodyReady != 0 {
        return BodyReady, 0;
      }
      ghost var whole := PushChunk(Capacity(), CurrentPhase(), data);
      var index := 0;
      while index < |data|
        invariant 0 <= index <= |data| && bytesConsumed == index
        invariant scratch == old(scratch) && StateIsValid() && bodyReady == 0
        invariant var rest := PushFrom(Capacity(), CurrentPhase(), data[index..], result);
                  whole == rest.(consumed := rest.consumed + index)
      {
        assert data[index..][1..] == data[index + 1..];
        result := PushByte(data[index]);
        if result == Error {
          assert false;
        }
        bytesConsumed := index + 1;
        if result == BodyReady {
          return;
        }
        if result == DiscardedBody {
          return;
        }
        index := index + 1;
      }
    }

    method PeekBody() returns (status: Status, bodySize: nat)
      ensures !StateIsValid() ==> status == InternalError
      ensures StateIsValid() ==> status == if CurrentPhase().Holding? then Ok else NotReady
      ensures status == Ok ==>
                scratch != null && bodySize <= scratch.Length && scratch[..bodySize] == CurrentPhase().body
      ensures status != Ok ==> bodySize == 0
    {
      if !StateIsValid() {
        return InternalError, 0;
      }
      if bodyReady == 0 {
        return NotReady, 0;
      }
      return Ok, accumulatedSize;
    }

    method ConsumeBody() returns (status: Status)
      modifies this
      ensures scratch == old(scratch)
      ensures !old(StateIsValid()) ==> status == InternalError && unchanged(this)
      ensures old(StateIsValid()) ==> StateIsValid()
      ensures old(StateIsValid() && CurrentPhase().Holding?) ==> status == Ok && CurrentPhase() == Collecting([])
      ensures old(StateIsValid() && !CurrentPhase().Holding?) ==> status == NotReady && unchanged(this)
    {
      if !StateIsValid() {
        return InternalError;
      }
      if bodyReady == 0 {
        return NotReady;
      }
      bodyReady := 0;
      accumulatedSize := 0;
      return Ok;
    }

    /** Copy and consume; the destination may be the scratch buffer itself. */
    method ReadBody(out: array<byte>) returns (status: Status, bodySize: nat)
      modifies this, out
      ensures scratch == old(scratch)
      ensures scratch == null ==> status == InvalidArgument && bodySize == 0
      ensures scratch != null && !old(StateIsValid()) ==> status == InternalError && bodySize == 0
      ensures old(StateIsValid() && !CurrentPhase().Holding?) ==> status == NotReady && bodySize == 0
      ensures old(StateIsValid() && CurrentPhase().Holding?) ==>
                && bodySize == |old(CurrentPhase().body)|
                && status == (if out.Length < bodySize then BufferTooSmall else Ok)
      ensures status == Ok ==>
                && out[..bodySize] == old(CurrentPhase().body)
                && out[bodySize..] == old(out[bodySize..])
                && StateIsValid() && CurrentPhase() == Collecting([])
      ensures status != Ok ==> unchanged(this) && unchanged(out)
    {
      if scratch == null {
        return InvalidArgument, 0;
      }
      status, bodySize := PeekBody();
      if status != Ok {
        return;
      }
      if out.Length < bodySize {
        return BufferTooSmall, bodySize;
      }
      var body := scratch[..bodySize];
      forall i | 0 <= i < bodySize {
        out[i] := body[i];
      }
      assert out[..bodySize] == body;
      status := ConsumeBody();
    }

    method Reset()
      modifies this
      ensures scratch == old(scratch)
      ensures accumulatedSize == 0 && bodyReady == 0 && discarding == 0
      ensures scratch != null && scratch.Length != 0 ==> StateIsValid() && CurrentPhase() == Collecting([])
    {
      accumulatedSize, bodyReady, discarding := 0, 0, 0;
    }
  }

  /** The check accepts exactly the field values of the three phases, each within the scratch buffer. */
  lemma ValidStatesArePhases(parser: Parser)
    ensures parser.StateIsValid()
            <==> && parser.scratch != null && parser.scratch.Length > 0
                 && var size, room := parser.accumulatedSize, parser.scratch.Length;
                    match (parser.bodyReady, parser.discarding)
                    case (0, 0) => size <= room
                    case (1, 0) => 1 <= size <= room
                    case (0, 1) => size == 0
                    case _ => false
  {
  }
}

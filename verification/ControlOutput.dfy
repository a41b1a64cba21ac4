/**
 The one-item control-output slot of the MVP transport: publish, peek, commit, reset.

 The lifecycle fields are plain numbers, as in the source, so a corrupted slot is representable and the
 fault it records is part of the model. The class updates the fields in place; each method is tied to
 an operation on the value `Memory`, and the lemmas below it are about every sequence of operations.
 */
module ControlOutput {
  import opened TransportTypes
  import opened Wire

  const CAPACITY := 20
  const IDLE := 0
  const READY := 1
  const PEEKED := 2

  datatype SessionState = Disconnected | Connecting | Established | Recovering | Fault

  datatype Failure =
    | NoFailure | LinkLost | ConnectionTimeout | Delivery | Protocol | CapacityFailure | LocalReset | Internal

  /** The session state and last failure, as the public view and the private policy each keep them. */
  datatype Mirrors = Mirrors(
    baseState: SessionState, baseFailure: Failure, sessionState: SessionState, sessionFailure: Failure)

  const FAULTED := Mirrors(Fault, Internal, Fault, Internal)

  datatype Memory = Memory(state: nat, size: nat, bytes: seq<byte>, mirrors: Mirrors)

  predicate StateOk(m: Memory) {
    || (m.state == IDLE && m.size == 0)
    || ((m.state == READY || m.state == PEEKED) && m.size != 0 && m.size <= CAPACITY)
  }

  function Contents(m: Memory): seq<byte>
    requires |m.bytes| == CAPACITY && m.size <= CAPACITY
  {
    m.bytes[..m.size]
  }

  function Faulted(m: Memory): Memory {
    m.(mirrors := FAULTED)
  }

  function AfterPublish(m: Memory, item: seq<byte>): (Memory, Status)
    requires |m.bytes| == CAPACITY
  {
    if item == [] || |item| > CAPACITY then (m, InvalidArgument)
    else if !StateOk(m) then (Faulted(m), InternalError)
    else if m.state == IDLE then
      (m.(bytes := item + m.bytes[|item|..], size := |item|, state := READY), Ok)
    else if Contents(m) == item then (m, Ok)
    else (m, NotReady)
  }

  function AfterPeek(m: Memory, room: nat): (Memory, Status)
    requires |m.bytes| == CAPACITY
  {
    if !StateOk(m) then (Faulted(m), InternalError)
    else if m.state == IDLE then (m, NotReady)
    else if room < m.size then (m, BufferTooSmall)
    else (m.(state := PEEKED), Ok)
  }

  function AfterCommit(m: Memory): (Memory, Status) {
    if !StateOk(m) then (Faulted(m), InternalError)
    else if m.state != PEEKED then (m, NotReady)
    else (m.(size := 0, state := IDLE), Ok)
  }

  function AfterReset(m: Memory): Memory {
    m.(size := 0, state := IDLE)
  }

  class Slot {
    var controlOutputState: nat
    var controlOutputSize: nat
    const controlOutput: array<byte>
    var mirrors: Mirrors

    ghost predicate Valid()
      reads this
    {
      controlOutput.Length == CAPACITY
    }

    function Snapshot(): (m: Memory)
      reads this, controlOutput
      ensures |m.bytes| == controlOutput.Length
    {
      Memory(controlOutputState, controlOutputSize, controlOutput[..], mirrors)
    }

    constructor (mirrors: Mirrors)
      ensures Valid() && fresh(controlOutput)
      ensures controlOutputState == IDLE && controlOutputSize == 0 && this.mirrors == mirrors
    {
      controlOutputState, controlOutputSize := IDLE, 0;
      controlOutput := new byte[CAPACITY](i => 0);
      this.mirrors := mirrors;
    }

    method ValidateState() returns (status: Status)
      requires Valid()
      modifies this`mirrors
      ensures status == if StateOk(old(Snapshot())) then Ok else InternalError
      ensures Snapshot() == if status == Ok then old(Snapshot()) else Faulted(old(Snapshot()))
    {
      if controlOutputState == IDLE {
        if controlOutputSize == 0 {
          return Ok;
        }
      } else if controlOutputState == READY || controlOutputState == PEEKED {
        if controlOutputSize != 0 && controlOutputSize <= CAPACITY {
          return Ok;
        }
      }
      mirrors := FAULTED;
      return InternalError;
    }

    method PublishEncoded(item: seq<byte>) returns (status: Status)
      requires Valid()
      modifies this, controlOutput
      ensures Valid() && (Snapshot(), status) == AfterPublish(old(Snapshot()), item)
    {
      if |item| == 0 || |item| > CAPACITY {
        return InvalidArgument;
      }
      status := ValidateState();
      if status != Ok {
        return;
      }
      if controlOutputState == IDLE {
        forall i | 0 <= i < |item| {
          controlOutput[i] := item[i];
        }
        controlOutputSize := |item|;
        controlOutputState := READY;
        assert controlOutput[..] == item + old(controlOutput[..])[|item|..];
        return Ok;
      }
      if controlOutputSize == |item| && controlOutput[..controlOutputSize] == item {
        return Ok;
      }
      return NotReady;
    }

    method PeekOutput(out: array<byte>) returns (status: Status, outputSize: nat)
      requires Valid() && out != controlOutput
      modifies this, out
      ensures Valid() && (Snapshot(), status) == AfterPeek(old(Snapshot()), out.Length)
      ensures outputSize == if status == Ok || status == BufferTooSmall then old(controlOutputSize) else 0
      ensures status == Ok ==>
                && outputSize <= CAPACITY && out[..outputSize] == Contents(Snapshot())
                && out[outputSize..] == old(out[outputSize..])
      ensures status != Ok ==> unchanged(out)
    {
      outputSize := 0;
      status := ValidateState();
      if status != Ok {
        return;
      }
      if controlOutputState == IDLE {
        return NotReady, 0;
      }
      outputSize := controlOutputSize;
      if out.Length < controlOutputSize {
        return BufferTooSmall, outputSize;
      }
      forall i | 0 <= i < controlOutputSize {
        out[i] := controlOutput[i];
      }
      controlOutputState := PEEKED;
      assert controlOutput[..] == old(controlOutput[..]);
      assert out[..outputSize] == controlOutput[..outputSize];
      return Ok, outputSize;
    }

    method CommitOutput() returns (status: Status)
      requires Valid()
      modifies this
      ensures Valid() && (Snapshot(), status) == AfterCommit(old(Snapshot()))
    {
      status := ValidateState();
      if status != Ok {
        return;
      }
      if controlOutputState != PEEKED {
        return NotReady;
      }
      controlOutputSize := 0;
      controlOutputState := IDLE;
      return Ok;
    }

    method Reset()
      requires Valid()
      modifies this
      ensures Valid() && Snapshot() == AfterReset(old(Snapshot()))
    {
      controlOutputSize := 0;
      controlOutputState := IDLE;
    }

    method GetPendingStatus() returns (status: Status, pending: bool)
      requires Valid()
      modifies this`mirrors
      ensures status == if StateOk(old(Snapshot())) then Ok else InternalError
      ensures Snapshot() == if status == Ok then old(Snapshot()) else Faulted(old(Snapshot()))
      ensures pending <==> status == Ok && controlOutputState != IDLE
    {
      status := ValidateState();
      pending := status == Ok && controlOutputState != IDLE;
    }
  }

  // ---------------------------------------------------------------------------
  // Every sequence of operations
  // ---------------------------------------------------------------------------

  datatype Operation = Publish(item: seq<byte>) | Peek(room: nat) | Commit | ResetSlot

  /** The slot with the items that entered it and the items committed out of it since the last reset. */
  datatype Log = Log(memory: Memory, published: seq<seq<byte>>, committed: seq<seq<byte>>)

  function Apply(log: Log, op: Operation): Log
    requires |log.memory.bytes| == CAPACITY
  {
    match op
    case Publish(item) =>
      var (m, status) := AfterPublish(log.memory, item);
      Log(m, if log.memory.state == IDLE && m.state == READY then log.published + [item] else log.published,
          log.committed)
    case Peek(room) => log.(memory := AfterPeek(log.memory, room).0)
    case Commit =>
      var (m, status) := AfterCommit(log.memory);
      Log(m, log.published, if status == Ok && log.memory.size <= CAPACITY
                            then log.committed + [Contents(log.memory)] else log.committed)
    case ResetSlot => Log(AfterReset(log.memory), [], [])
  }

  lemma ApplyKeepsCapacity(log: Log, op: Operation)
    requires |log.memory.bytes| == CAPACITY
    ensures |Apply(log, op).memory.bytes| == CAPACITY
  {
  }

  function Perform(log: Log, ops: seq<Operation>): (r: Log)
    requires |log.memory.bytes| == CAPACITY
    ensures |r.memory.bytes| == CAPACITY
    decreases |ops|
  {
    if ops == [] then log
    else
      ApplyKeepsCapacity(log, ops[0]);
      Perform(Apply(log, ops[0]), ops[1..])
  }

  function Waiting(m: Memory): seq<seq<byte>>
    requires |m.bytes| == CAPACITY && m.size <= CAPACITY
  {
    if m.state == IDLE then [] else [Contents(m)]
  }

  /** What every run keeps: a sound lifecycle, and every item either committed or waiting. */
  ghost predicate Conserves(log: Log) {
    && |log.memory.bytes| == CAPACITY
    && StateOk(log.memory)
    && log.committed + Waiting(log.memory) == log.published
  }

  lemma ApplyConserves(log: Log, op: Operation)
    requires Conserves(log)
    ensures Conserves(Apply(log, op))
    ensures Apply(log, op).memory.mirrors == log.memory.mirrors
  {
    var after := Apply(log, op);
    match op
    case Publish(item) =>
      if log.memory.state == IDLE && after.memory.state == READY {
        assert (item + log.memory.bytes[|item|..])[..|item|] == item;
      }
    case Peek(_) =>
    case Commit =>
      assert after.committed + [] == after.committed;
    case ResetSlot =>
  }

  /**
   From a sound slot, no sequence of publish, peek, commit and reset records a fault; and the committed
   items followed by what the slot holds are exactly the items that entered it since the last reset.
   */
  lemma {:induction false} RunsConserveAndNeverFault(log: Log, ops: seq<Operation>)
    requires Conserves(log)
    ensures Conserves(Perform(log, ops))
    ensures Perform(log, ops).memory.mirrors == log.memory.mirrors
    decreases |ops|
  {
    if ops == [] {
    } else {
      ApplyConserves(log, ops[0]);
      RunsConserveAndNeverFault(Apply(log, ops[0]), ops[1..]);
    }
  }

  // ---------------------------------------------------------------------------
  // What the operations answer
  // ---------------------------------------------------------------------------

  /**
   A sound slot acknowledges an item of one to 20 bytes exactly when the item then waits in it; an item of
   another size is invalid, and one that finds a different item waiting is refused. A slot that holds an
   item is never changed by a publication.
   */
  lemma PublishAnswers(m: Memory, item: seq<byte>)
    requires |m.bytes| == CAPACITY && StateOk(m)
    ensures var (after, status) := AfterPublish(m, item);
            && (status == Ok <==> 1 <= |item| <= 20 && Waiting(after) == [item])
            && (status == InvalidArgument <==> |item| == 0 || |item| > 20)
            && (status == NotReady <==> 1 <= |item| <= 20 && Waiting(m) != [] && Waiting(m) != [item])
            && (status == Ok || after == m) && (Waiting(m) != [] ==> after == m)
            && status in {Ok, NotReady, InvalidArgument}
  {
    assert (item + m.bytes[if |item| <= CAPACITY then |item| else 0..])[..|item|] == item;
    assert Waiting(m) != [] ==> Waiting(m)[0] == Contents(m);
  }

  /** A sound slot shows and pins the waiting item if there is one and the buffer has room for it. */
  lemma PeekAnswers(m: Memory, room: nat)
    requires |m.bytes| == CAPACITY && StateOk(m)
    ensures var (after, status) := AfterPeek(m, room);
            && (status == Ok <==> Waiting(m) != [] && |Waiting(m)[0]| <= room)
            && (status == BufferTooSmall <==> Waiting(m) != [] && |Waiting(m)[0]| > room)
            && (status == NotReady <==> Waiting(m) == [])
            && StateOk(after) && Waiting(after) == Waiting(m)
            && (after.state == PEEKED <==> m.state == PEEKED || status == Ok)
  {
  }

  /** A sound slot releases an item exactly when it has been peeked, and is empty after that. */
  lemma CommitAnswers(m: Memory)
    requires |m.bytes| == CAPACITY && StateOk(m)
    ensures var (after, status) := AfterCommit(m);
            if m.state == PEEKED then status == Ok && StateOk(after) && Waiting(m) != [] && Waiting(after) == []
            else status == NotReady && after == m
  {
  }

  /** A corrupted slot answers a well-formed call with an internal error. */
  lemma CorruptedSlotAnswers(m: Memory, item: seq<byte>, room: nat)
    requires |m.bytes| == CAPACITY && !StateOk(m)
    ensures AfterPublish(m, item).1 == if 1 <= |item| <= 20 then InternalError else InvalidArgument
    ensures AfterPeek(m, room).1 == InternalError && AfterCommit(m).1 == InternalError
  {
  }

  /** The lifecycle after some operations on an empty slot. */
  ghost predicate Reaches(bytes: seq<byte>, mirrors: Mirrors, ops: seq<Operation>, state: nat, size: nat)
    requires |bytes| == CAPACITY
  {
    var end := Perform(Log(Memory(IDLE, 0, bytes, mirrors), [], []), ops).memory;
    end.state == state && end.size == size
  }

  lemma PerformTwo(log: Log, first: Operation, second: Operation)
    requires |log.memory.bytes| == CAPACITY
    ensures Perform(log, [first]) == Apply(log, first)
    ensures Perform(log, [first, second]) == Perform(Apply(log, first), [second])
    ensures |Apply(log, first).memory.bytes| == CAPACITY
    ensures Perform(Apply(log, first), [second]) == Apply(Apply(log, first), second)
  {
    assert [first][1..] == [] && [second][1..] == [] && [first, second][1..] == [second];
    ApplyKeepsCapacity(log, first);
  }

  /** The lifecycle check accepts exactly what operations on an empty slot can lead to. */
  lemma SoundExactlyWhenReachable(m: Memory)
    requires |m.bytes| == CAPACITY
    ensures StateOk(m) <==> exists ops :: Reaches(m.bytes, m.mirrors, ops, m.state, m.size)
  {
    var start := Log(Memory(IDLE, 0, m.bytes, m.mirrors), [], []);
    forall ops | Reaches(m.bytes, m.mirrors, ops, m.state, m.size)
      ensures StateOk(m)
    {
      RunsConserveAndNeverFault(start, ops);
    }
    if StateOk(m) {
      var publish, peek := Publish(m.bytes[..m.size]), Peek(m.size);
      PerformTwo(start, publish, peek);
      if m.state == IDLE {
        assert Reaches(m.bytes, m.mirrors, [], m.state, m.size);
      } else if m.state == READY {
        assert Reaches(m.bytes, m.mirrors, [publish], m.state, m.size);
      } else {
        assert Reaches(m.bytes, m.mirrors, [publish, peek], m.state, m.size);
      }
    }
  }

  ghost predicate NeverResets(ops: seq<Operation>) {
    forall i :: 0 <= i < |ops| ==> !ops[i].ResetSlot?
  }

  /** The items whose publication was answered Ok. */
  function Acknowledged(log: Log, ops: seq<Operation>): seq<seq<byte>>
    requires |log.memory.bytes| == CAPACITY
    decreases |ops|
  {
    if ops == [] then []
    else
      var first :=
        match ops[0]
        case Publish(item) => if AfterPublish(log.memory, item).1 == Ok then [item] else []
        case _ => [];
      ApplyKeepsCapacity(log, ops[0]);
      first + Acknowledged(Apply(log, ops[0]), ops[1..])
  }

  /** A publication answered Ok enters the slot, or repeats the last item that did; any other leaves no trace. */
  lemma PublicationEntersOrRepeats(log: Log, item: seq<byte>)
    requires Conserves(log)
    ensures var after, status := Apply(log, Publish(item)), AfterPublish(log.memory, item).1;
            if status != Ok then after == log
            else if log.memory.state == IDLE then after.published == log.published + [item]
            else after == log && log.published != [] && log.published[|log.published| - 1] == item
  {
    PublishAnswers(log.memory, item);
  }

  lemma ApplyPublishes(log: Log, op: Operation)
    requires Conserves(log) && !op.ResetSlot?
    ensures log.published <= Apply(log, op).published
    ensures forall item :: item in Apply(log, op).published
              <==> item in log.published || (op == Publish(item) && AfterPublish(log.memory, item).1 == Ok)
  {
    if op.Publish? {
      PublicationEntersOrRepeats(log, op.item);
    }
  }

  /** Over every run: the items that entered the slot are exactly those whose publication was answered Ok. */
  lemma {:induction false} AcknowledgedIsPublished(log: Log, ops: seq<Operation>, item: seq<byte>)
    requires Conserves(log) && NeverResets(ops)
    ensures item in Perform(log, ops).published <==> item in log.published || item in Acknowledged(log, ops)
    decreases |ops|
  {
    if ops == [] {
    } else {
      var next := Apply(log, ops[0]);
      ApplyConserves(log, ops[0]);
      ApplyPublishes(log, ops[0]);
      AcknowledgedIsPublished(next, ops[1..], item);
    }
  }

  ghost predicate LeavesItem(ops: seq<Operation>) {
    forall i :: 0 <= i < |ops| ==> ops[i].Publish? || ops[i].Peek?
  }

  /** A peeked item is pinned: until commit or reset, whatever is published, every peek sees the same bytes. */
  lemma {:induction false} PeekedItemIsPinned(log: Log, ops: seq<Operation>, room: nat)
    requires Conserves(log) && log.memory.state == PEEKED && LeavesItem(ops)
    ensures Perform(log, ops) == log
    ensures AfterPeek(Perform(log, ops).memory, room)
            == (log.memory, if room < log.memory.size then BufferTooSmall else Ok)
    decreases |ops|
  {
    if ops == [] {
    } else {
      PeekedItemIsPinned(log, ops[1..], room);
    }
  }

  /** Some operation before the first reset looks at the lifecycle; a publication of a wrong size does not. */
  predicate LooksBeforeReset(ops: seq<Operation>)
    decreases |ops|
  {
    && ops != []
    && match ops[0]
       case ResetSlot => false
       case Publish(item) => 1 <= |item| <= CAPACITY || LooksBeforeReset(ops[1..])
       case _ => true
  }

  lemma ApplyOnSound(log: Log, op: Operation)
    requires |log.memory.bytes| == CAPACITY && StateOk(log.memory)
    ensures StateOk(Apply(log, op).memory) && Apply(log, op).memory.mirrors == log.memory.mirrors
  {
  }

  /** What one operation does to a corrupted slot: look and fault, pass over it, or repair it. */
  lemma ApplyOnCorrupted(log: Log, op: Operation)
    requires |log.memory.bytes| == CAPACITY && !StateOk(log.memory)
    ensures var after := Apply(log, op).memory;
            match op
            case ResetSlot => StateOk(after) && after.mirrors == log.memory.mirrors
            case Publish(item) => after == if 1 <= |item| <= CAPACITY then Faulted(log.memory) else log.memory
            case _ => after == Faulted(log.memory)
  {
  }

  lemma {:induction false} FaultIsKept(log: Log, ops: seq<Operation>)
    requires |log.memory.bytes| == CAPACITY && log.memory.mirrors == FAULTED
    ensures Perform(log, ops).memory.mirrors == FAULTED
    decreases |ops|
  {
    if ops == [] {
    } else {
      FaultIsKept(Apply(log, ops[0]), ops[1..]);
    }
  }

  /**
   From any slot, sound or corrupted: a run ends with the fault recorded exactly when the slot was corrupted
   at the start and some operation looked at it before the first reset.
   */
  lemma {:induction false} FaultExactlyWhenCorruptionIsSeen(log: Log, ops: seq<Operation>)
    requires |log.memory.bytes| == CAPACITY && log.memory.mirrors != FAULTED
    ensures Perform(log, ops).memory.mirrors == Mirrors(Fault, Internal, Fault, Internal)
            <==> !StateOk(log.memory) && LooksBeforeReset(ops)
    decreases |ops|
  {
    if ops == [] {
    } else {
      var next := Apply(log, ops[0]);
      if StateOk(log.memory) {
        ApplyOnSound(log, ops[0]);
      } else {
        ApplyOnCorrupted(log, ops[0]);
      }
      if next.memory.mirrors == FAULTED {
        FaultIsKept(next, ops[1..]);
      } else {
        FaultExactlyWhenCorruptionIsSeen(next, ops[1..]);
      }
    }
  }
}

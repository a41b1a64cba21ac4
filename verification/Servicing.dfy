/**
 Caller-side servicing of one transport: partial writes out, partial receives in.

 The servicer owns the bytes that belong to neither the transport nor the driver. Its transport is
 represented by the two parts modelled here, the control-output slot and the stream parser. The
 external writer is an arbitrary answer to each offer.
 */
module Servicing {
  import opened TransportTypes
  import opened Wire
  import CO = ControlOutput
  import SP = StreamParser

  /** How one `service_output` call ends; the last two are the exceptions of the source. */
  datatype ServiceResult =
    | Serviced(accepted: nat, commitStatus: Option<Status>)
    | BadWriterCount
    | UnexpectedStatus(status: Status)

  /** The slot and the bytes of it that the servicer has taken out and is writing. */
  datatype Outgoing = Outgoing(memory: CO.Memory, pending: Option<seq<byte>>, offset: nat)

  datatype Attempt = Attempt(outgoing: Outgoing, result: ServiceResult, written: seq<byte>)

  /** The slot itself may be corrupted; only the servicer's own offset is bounded. */
  ghost predicate Sound(o: Outgoing) {
    && |o.memory.bytes| == CO.CAPACITY
    && (o.pending.Some? ==> o.offset <= |o.pending.value|)
  }

  /** Take the selected output out of the slot, which pins it there, unless some is already taken. */
  function Taken(o: Outgoing): Outgoing
    requires Sound(o)
  {
    if o.pending.Some? || !CO.StateOk(o.memory) then o
    else if o.memory.state == CO.IDLE then o.(offset := 0)
    else Outgoing(CO.AfterPeek(o.memory, o.memory.size).0, Some(CO.Contents(o.memory)), 0)
  }

  /** One servicing attempt, in which the external writer answers `answer` to the offered suffix. */
  function ServiceOutput(o: Outgoing, answer: int): Attempt
    requires Sound(o)
  {
    var taken := Taken(o);
    if taken.pending.None? then
      if CO.StateOk(o.memory) then Attempt(taken, Serviced(0, None), [])
      else Attempt(o.(memory := CO.Faulted(o.memory)), UnexpectedStatus(InternalError), [])
    else
      var item := taken.pending.value;
      if !(0 <= answer <= |item| - taken.offset) then Attempt(taken, BadWriterCount, [])
      else
        var written := item[taken.offset..taken.offset + answer];
        if taken.offset + answer != |item| then
          Attempt(taken.(offset := taken.offset + answer), Serviced(answer, None), written)
        else
          var (memory, status) := CO.AfterCommit(taken.memory);
          Attempt(Outgoing(memory, None, 0),
                  if status == Ok || status == NotReady then Serviced(answer, Some(status))
                  else UnexpectedStatus(status),
                  written)
  }

  lemma ServiceKeepsSound(o: Outgoing, answer: int)
    requires Sound(o)
    ensures Sound(ServiceOutput(o, answer).outgoing)
  {
  }

  /** The bytes one attempt offers to the external writer: the rest of a taken item, or the item that waits. */
  function Offered(o: Outgoing): Option<seq<byte>>
    requires Sound(o)
  {
    if o.pending.Some? then Some(o.pending.value[o.offset..])
    else if !CO.StateOk(o.memory) || CO.Waiting(o.memory) == [] then None
    else Some(CO.Waiting(o.memory)[0])
  }

  /**
   The result of an attempt. The accepted count is that of the bytes written, a prefix of those offered; a
   writer's count out of range is refused; a commit is reported exactly when the last byte was accepted, as
   Ok exactly when the slot still pins the item; and only a corrupted slot gives an unexpected status.
   */
  lemma ServiceAnswers(o: Outgoing, answer: int)
    requires Sound(o)
    ensures var attempt, offered, sound := ServiceOutput(o, answer), Offered(o), CO.StateOk(o.memory);
            match offered
            case None =>
              && attempt.written == []
              && attempt.result == if sound then Serviced(0, None) else UnexpectedStatus(InternalError)
            case Some(bytes) =>
              if !(0 <= answer <= |bytes|) then attempt.result == BadWriterCount && attempt.written == []
              else
                && attempt.written == bytes[..answer]
                && (attempt.result == Serviced(answer, None) <==> answer < |bytes|)
                && (attempt.result == Serviced(answer, Some(Ok))
                    <==> answer == |bytes| && sound && (o.pending.None? || o.memory.state == CO.PEEKED))
                && (attempt.result == Serviced(answer, Some(NotReady))
                    <==> answer == |bytes| && sound && o.pending.Some? && o.memory.state != CO.PEEKED)
                && (attempt.result == UnexpectedStatus(InternalError) <==> answer == |bytes| && !sound)
  {
    var taken := Taken(o);
    if o.pending.None? && taken.pending.Some? {
      assert taken.pending.value[0..] == taken.pending.value;
    }
  }

  class TransportServicer {
    const slot: CO.Slot
    const parser: SP.Parser
    var incoming: seq<byte>
    var pendingOutput: Option<seq<byte>>
    var pendingOutputOffset: nat

    /** Nothing is asked of the slot's lifecycle or the parser's flags: both may be corrupted. */
    ghost predicate Valid()
      reads this, slot, slot.controlOutput, parser, parser.scratch
    {
      && slot.Valid()
      && Sound(CurrentOutgoing())
      && parser.scratch != slot.controlOutput
    }

    function CurrentOutgoing(): Outgoing
      reads this, slot, slot.controlOutput
    {
      Outgoing(slot.Snapshot(), pendingOutput, pendingOutputOffset)
    }

    constructor (slot: CO.Slot, parser: SP.Parser)
      ensures this.slot == slot && this.parser == parser
      ensures incoming == [] && pendingOutput == None && pendingOutputOffset == 0
    {
      this.slot, this.parser := slot, parser;
      incoming, pendingOutput, pendingOutputOffset := [], None, 0;
    }

    method InvalidateExternalState()
      modifies this
      ensures incoming == [] && pendingOutput == None && pendingOutputOffset == 0
    {
      incoming := [];
      pendingOutput := None;
      pendingOutputOffset := 0;
    }

    /**
     The binding's peek: a size query with no room, then a copy into a buffer of exactly that size. Any
     status other than Ok here is raised by the binding.
     */
    method PeekOutput() returns (status: Status, output: Option<seq<byte>>)
      requires Valid()
      modifies slot
      ensures slot.Valid()
      ensures !CO.StateOk(old(slot.Snapshot())) ==>
                status == InternalError && output == None && slot.Snapshot() == CO.Faulted(old(slot.Snapshot()))
      ensures CO.StateOk(old(slot.Snapshot())) ==> status == Ok
      ensures CO.StateOk(old(slot.Snapshot())) && old(slot.controlOutputState) == CO.IDLE ==>
                output == None && slot.Snapshot() == old(slot.Snapshot())
      ensures CO.StateOk(old(slot.Snapshot())) && old(slot.controlOutputState) != CO.IDLE ==>
                && output == Some(CO.Contents(old(slot.Snapshot())))
                && slot.Snapshot() == CO.AfterPeek(old(slot.Snapshot()), old(slot.controlOutputSize)).0
    {
      var none := new byte[0];
      var query, required := slot.PeekOutput(none);
      assert slot.controlOutput[..] == old(slot.controlOutput[..]);
      if query != NotReady && query != BufferTooSmall {
        return query, None;
      }
      if query == NotReady {
        if required != 0 {
          assert false;
        }
        return Ok, None;
      }
      if required == 0 {
        assert false;
      }
      var buffer := new byte[required](i => 0);
      var copied, size := slot.PeekOutput(buffer);
      assert slot.controlOutput[..] == old(slot.controlOutput[..]);
      if copied != Ok || size != required {
        assert false;
      }
      assert buffer[..] == buffer[..size];
      return Ok, Some(buffer[..]);
    }

    method ServiceOutputOnce(answer: int) returns (result: ServiceResult, written: seq<byte>)
      requires Valid()
      modifies this, slot
      ensures Valid() && incoming == old(incoming)
      ensures Attempt(CurrentOutgoing(), result, written) == ServiceOutput(old(CurrentOutgoing()), answer)
    {
      ServiceKeepsSound(CurrentOutgoing(), answer);
      if pendingOutput.None? {
        var status, output := PeekOutput();
        if status != Ok {
          return UnexpectedStatus(status), [];
        }
        pendingOutput := output;
        pendingOutputOffset := 0;
      }
      assert CurrentOutgoing() == Taken(old(CurrentOutgoing()));
      if pendingOutput.None? {
        return Serviced(0, None), [];
      }
      var remaining := pendingOutput.value[pendingOutputOffset..];
      if !(0 <= answer <= |remaining|) {
        return BadWriterCount, [];
      }
      written := remaining[..answer];
      pendingOutputOffset := pendingOutputOffset + answer;
      if pendingOutputOffset != |pendingOutput.value| {
        return Serviced(answer, None), written;
      }
      var status := slot.CommitOutput();
      pendingOutput := None;
      pendingOutputOffset := 0;
      if status != Ok && status != NotReady {
        return UnexpectedStatus(status), written;
      }
      return Serviced(answer, Some(status)), written;
    }

    /** Offer all retained bytes; a corrupted parser consumes none and says so. */
    method OfferReceived(data: seq<byte>) returns (result: SP.PushResult, consumed: nat)
      requires Valid()
      modifies this, parser, parser.scratch
      ensures Valid() && pendingOutput == old(pendingOutput) && pendingOutputOffset == old(pendingOutputOffset)
      ensures parser.scratch == old(parser.scratch)
      ensures old(parser.StateIsValid()) ==>
                var offered := old(incoming) + data;
                && parser.StateIsValid()
                && SP.Pushed(parser.CurrentPhase(), result, consumed)
                   == SP.PushChunk(parser.Capacity(), old(parser.CurrentPhase()), offered)
                && consumed <= |offered| && incoming == offered[consumed..]
      ensures !old(parser.StateIsValid()) ==>
                result == SP.Error && consumed == 0 && incoming == old(incoming) + data && unchanged(parser)
    {
      incoming := incoming + data;
      result, consumed := parser.PushBytes(incoming);
      incoming := incoming[consumed..];
    }

    /** The local reset, from any state: caller-owned bytes are discarded before the transport forgets its own. */
    method Reset()
      requires slot.Valid()
      requires parser.scratch != null && parser.scratch.Length != 0 && parser.scratch != slot.controlOutput
      modifies this, slot, parser
      ensures Valid() && incoming == [] && CurrentOutgoing() == Outgoing(CO.AfterReset(old(slot.Snapshot())), None, 0)
      ensures parser.StateIsValid() && parser.CurrentPhase() == SP.Collecting([])
    {
      InvalidateExternalState();
      slot.Reset();
      parser.Reset();
    }
  }
}

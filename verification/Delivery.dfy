/**
 End-to-end delivery: one side publishes items into its control slot, a servicer writes them out in
 arbitrary pieces, and the other side receives the bytes in arbitrary pieces and parses bodies.

 A run is any interleaving of publications, writes of any accepted length, arrivals of any length,
 retries and body consumptions, between resets.
 */
module Delivery {
  import opened Sequences
  import opened Wire
  import CO = ControlOutput
  import T = TransportTypes
  import SP = StreamParser
  import SS = StreamSplit
  import SV = Servicing

  /**
   Both ends of one link. `log` is the sender's slot with its publications and commits, `written` every
   byte the external writer accepted, of which the first `arrived` have reached the receiver, and
   `incoming` those the receiver's servicer retains. `run` is the receiver's parser and its reports.
   */
  datatype Link = Link(
    log: CO.Log, pending: Option<seq<byte>>, offset: nat,
    written: seq<byte>, arrived: nat, incoming: seq<byte>, run: SS.Run)

  datatype Step = Publish(item: seq<byte>) | Service(answer: int) | Arrive(count: nat) | TakeBody

  function Outgoing(link: Link): SV.Outgoing {
    SV.Outgoing(link.log.memory, link.pending, link.offset)
  }

  function Next(capacity: nat, link: Link, step: Step): Link
    requires SV.Sound(Outgoing(link))
  {
    match step
    case Publish(item) => link.(log := CO.Apply(link.log, CO.Publish(item)))
    case Service(answer) =>
      var attempt := SV.ServiceOutput(Outgoing(link), answer);
      var taken := SV.Taken(Outgoing(link));
      var committed :=
        if attempt.result.Serviced? && attempt.result.commitStatus == Some(T.Ok) && taken.pending.Some?
        then link.log.committed + [taken.pending.value] else link.log.committed;
      link.(log := CO.Log(attempt.outgoing.memory, link.log.published, committed),
            pending := attempt.outgoing.pending, offset := attempt.outgoing.offset,
            written := link.written + attempt.written)
    case Arrive(count) =>
      var waiting := if link.arrived <= |link.written| then |link.written| - link.arrived else 0;
      var moved := if count <= waiting then count else waiting;
      var data := if moved == 0 then [] else link.written[link.arrived..link.arrived + moved];
      var offered := link.incoming + data;
      var p := SP.PushChunk(capacity, link.run.phase, offered);
      link.(arrived := link.arrived + moved, incoming := offered[p.consumed..],
            run := SS.Act(capacity, link.run, SS.Push(offered)))
    case TakeBody => link.(run := SS.Act(capacity, link.run, SS.Take))
  }

  ghost predicate FitsReceiver(capacity: nat, body: seq<byte>) {
    SS.ZeroFree(body) && 1 <= |body| <= capacity
  }

  /** A framed item: a nonempty zero-free body the receiver has room for, closed by one delimiter. */
  ghost predicate Framed(capacity: nat, item: seq<byte>) {
    && 2 <= |item|
    && item[|item| - 1] == 0
    && FitsReceiver(capacity, Body(item))
  }

  function Body(item: seq<byte>): seq<byte> {
    if item == [] then [] else item[..|item| - 1]
  }

  function Bodies(items: seq<seq<byte>>): (bodies: seq<seq<byte>>)
    ensures |bodies| == |items|
    ensures forall i :: 0 <= i < |items| ==> bodies[i] == Body(items[i])
  {
    seq(|items|, i requires 0 <= i < |items| => Body(items[i]))
  }

  function Deliveries(bodies: seq<seq<byte>>): (events: seq<SS.Event>)
    ensures |events| == |bodies|
    ensures forall i :: 0 <= i < |bodies| ==> events[i] == SS.Delivered(bodies[i])
  {
    seq(|bodies|, i requires 0 <= i < |bodies| => SS.Delivered(bodies[i]))
  }

  /** The item being written out is the one pinned in the slot, and nothing else is pinned. */
  ghost predicate PendingIsPinned(link: Link) {
    && SV.Sound(Outgoing(link)) && CO.StateOk(link.log.memory)
    && (link.pending.Some? <==> link.log.memory.state == CO.PEEKED)
    && (link.pending.Some? ==> link.pending.value == CO.Contents(link.log.memory))
  }

  function WrittenPart(link: Link): seq<byte> {
    if link.pending.Some? && link.offset <= |link.pending.value| then link.pending.value[..link.offset] else []
  }

  /** What every run keeps, byte for byte, from publication to the receiver's parser. */
  ghost predicate Invariant(capacity: nat, link: Link) {
    && CO.Conserves(link.log)
    && PendingIsPinned(link)
    && link.written == Flatten(link.log.committed) + WrittenPart(link)
    && link.arrived <= |link.written|
    && link.written[..link.arrived] == link.run.accepted + link.incoming
    && SS.Agrees(capacity, link.run)
  }

  ghost predicate AllFramed(capacity: nat, items: seq<seq<byte>>) {
    forall i :: 0 <= i < |items| ==> Framed(capacity, items[i])
  }

  // ---------------------------------------------------------------------------
  // Each step keeps the invariant
  // ---------------------------------------------------------------------------

  lemma PublishKeeps(capacity: nat, link: Link, item: seq<byte>)
    requires Invariant(capacity, link)
    ensures Invariant(capacity, Next(capacity, link, Publish(item)))
  {
    CO.ApplyConserves(link.log, CO.Publish(item));
  }

  lemma TakenKeeps(capacity: nat, link: Link)
    requires Invariant(capacity, link)
    ensures var taken := SV.Taken(Outgoing(link));
            var after :=
              link.(log := link.log.(memory := taken.memory), pending := taken.pending, offset := taken.offset);
            && Invariant(capacity, after)
            && (after.pending.None? ==> after.log.memory.state == CO.IDLE)
  {
  }

  /** A written piece extends the part already written; the last piece completes the item. */
  lemma WrittenPiece(before: seq<byte>, item: seq<byte>, offset: nat, count: nat)
    requires offset + count <= |item|
    ensures before + item[..offset] + item[offset..offset + count] == before + item[..offset + count]
    ensures offset + count == |item| ==> item[..offset + count] == item
  {
    assert item[..offset] + item[offset..offset + count] == item[..offset + count];
  }

  /** A write that leaves part of the pending item, or none of it accepted. */
  lemma PartialWriteKeeps(capacity: nat, link: Link, answer: int)
    requires Invariant(capacity, link) && link.pending.Some?
    requires 0 <= answer < |link.pending.value| - link.offset
    ensures Invariant(capacity, Next(capacity, link, Service(answer)))
  {
    hide SS.Agrees;
    hide Flatten;
    hide CO.Conserves;
    hide CO.AfterCommit;
    hide CO.Contents;
    var item := link.pending.value;
    WrittenPiece(Flatten(link.log.committed), item, link.offset, answer);
    assert (link.written + item[link.offset..link.offset + answer])[..link.arrived] == link.written[..link.arrived];
  }

  /** The write that completes the pending item, and so commits it. */
  lemma LastWriteKeeps(capacity: nat, link: Link, answer: int)
    requires Invariant(capacity, link) && link.pending.Some?
    requires answer == |link.pending.value| - link.offset
    ensures Invariant(capacity, Next(capacity, link, Service(answer)))
  {
    hide SS.Agrees;
    hide Flatten;
    var after := Next(capacity, link, Service(answer));
    var item := link.pending.value;
    WrittenPiece(Flatten(link.log.committed), item, link.offset, answer);
    FlattenSnoc(link.log.committed, item);
    assert (link.written + item[link.offset..link.offset + answer])[..link.arrived] == link.written[..link.arrived];
    assert Flatten(after.log.committed) + [] == Flatten(after.log.committed);
  }

  /** Servicing output that has been taken out of the slot already, or finding there is none. */
  lemma ServiceTakenKeeps(capacity: nat, link: Link, answer: int)
    requires Invariant(capacity, link)
    requires SV.Taken(Outgoing(link)) == Outgoing(link)
    ensures Invariant(capacity, Next(capacity, link, Service(answer)))
  {
    if link.pending.Some? && 0 <= answer < |link.pending.value| - link.offset {
      PartialWriteKeeps(capacity, link, answer);
    } else if link.pending.Some? && answer == |link.pending.value| - link.offset {
      LastWriteKeeps(capacity, link, answer);
    } else {
      assert link.written + [] == link.written;
    }
  }

  lemma ServiceKeeps(capacity: nat, link: Link, answer: int)
    requires Invariant(capacity, link)
    ensures Invariant(capacity, Next(capacity, link, Service(answer)))
  {
    hide SS.Agrees;
    hide Flatten;
    var taken := SV.Taken(Outgoing(link));
    var after := link.(log := link.log.(memory := taken.memory), pending := taken.pending, offset := taken.offset);
    TakenKeeps(capacity, link);
    assert SV.Taken(taken) == taken;
    ServiceTakenKeeps(capacity, after, answer);
    assert Next(capacity, link, Service(answer)) == Next(capacity, after, Service(answer));
  }

  /** Arriving bytes join those retained; the parser takes a prefix of them. */
  lemma ArrivingBytes(
      written: seq<byte>, arrived: nat, moved: nat, accepted: seq<byte>, incoming: seq<byte>, taken: nat)
    requires arrived + moved <= |written| && written[..arrived] == accepted + incoming
    requires taken <= |incoming| + moved
    ensures var offered := incoming + written[arrived..arrived + moved];
            written[..arrived + moved] == (accepted + offered[..taken]) + offered[taken..]
  {
    var data := written[arrived..arrived + moved];
    var offered := incoming + data;
    assert written[..arrived + moved] == written[..arrived] + data;
    assert accepted + incoming + data == accepted + offered;
    assert offered == offered[..taken] + offered[taken..];
  }

  lemma ArriveKeeps(capacity: nat, link: Link, count: nat)
    requires Invariant(capacity, link)
    ensures Invariant(capacity, Next(capacity, link, Arrive(count)))
  {
    hide SP.PushChunk;
    hide SS.Agrees;
    hide CO.Conserves;
    hide Flatten;
    var after := Next(capacity, link, Arrive(count));
    var moved := after.arrived - link.arrived;
    var offered := link.incoming + link.written[link.arrived..after.arrived];
    var p := SP.PushChunk(capacity, link.run.phase, offered);
    ArrivingBytes(link.written, link.arrived, moved, link.run.accepted, link.incoming, p.consumed);
    SS.ActAgrees(capacity, link.run, SS.Push(offered));
  }

  lemma NextKeeps(capacity: nat, link: Link, step: Step)
    requires Invariant(capacity, link)
    ensures Invariant(capacity, Next(capacity, link, step))
  {
    match step
    case Publish(item) => PublishKeeps(capacity, link, item);
    case Service(answer) => ServiceKeeps(capacity, link, answer);
    case Arrive(count) => ArriveKeeps(capacity, link, count);
    case TakeBody => SS.ActAgrees(capacity, link.run, SS.Take);
  }

  ghost function Perform(capacity: nat, link: Link, steps: seq<Step>): (end: Link)
    requires Invariant(capacity, link)
    ensures Invariant(capacity, end)
    decreases |steps|
  {
    if steps == [] then link
    else
      NextKeeps(capacity, link, steps[0]);
      Perform(capacity, Next(capacity, link, steps[0]), steps[1..])
  }

  // ---------------------------------------------------------------------------
  // What the receiver sees
  // ---------------------------------------------------------------------------

  lemma FramedIsClosedBody(capacity: nat, items: seq<seq<byte>>, i: nat)
    requires AllFramed(capacity, items) && i < |items|
    ensures items[i] == Body(items[i]) + [0]
  {
    assert Framed(capacity, items[i]);
  }

  lemma {:induction false} FlattenIsJoin(capacity: nat, items: seq<seq<byte>>)
    requires AllFramed(capacity, items)
    ensures Flatten(items) == SS.Join(Bodies(items))
    decreases |items|
  {
    hide Framed;
    if items == [] {
    } else {
      var last := |items| - 1;
      FlattenIsJoin(capacity, items[..last]);
      assert Bodies(items)[..last] == Bodies(items[..last]);
      FramedIsClosedBody(capacity, items, last);
      Associate(SS.Join(Bodies(items[..last])), Body(items[last]), [0]);
    }
  }

  lemma FramedItemsSplitIntoBodies(capacity: nat, items: seq<seq<byte>>)
    requires AllFramed(capacity, items)
    ensures SS.SplitAtZeros(Flatten(items)) == SS.Split(Bodies(items), [])
  {
    FlattenIsJoin(capacity, items);
    forall i | 0 <= i < |items|
      ensures SS.ZeroFree(Bodies(items)[i])
    {
      assert Framed(capacity, items[i]);
    }
    SS.SplitIsUnique(Bodies(items), []);
    assert SS.Join(Bodies(items)) + [] == SS.Join(Bodies(items));
  }

  lemma {:induction false} SplitOfPrefix(stream: seq<byte>, more: seq<byte>)
    ensures SS.SplitAtZeros(stream).segments <= SS.SplitAtZeros(stream + more).segments
    decreases |more|
  {
    if more == [] {
      assert stream + more == stream;
    } else {
      var init, last := more[..|more| - 1], more[|more| - 1];
      assert stream + more == (stream + init) + [last];
      SplitOfPrefix(stream, init);
      SS.SplitSnoc(stream + init, last);
    }
  }

  lemma {:induction false} FittingSegmentsAreDelivered(capacity: nat, segments: seq<seq<byte>>)
    requires forall i :: 0 <= i < |segments| ==> FitsReceiver(capacity, segments[i])
    ensures SS.Outcomes(capacity, segments) == Deliveries(segments)
    decreases |segments|
  {
    if segments == [] {
    } else {
      var last := |segments| - 1;
      assert FitsReceiver(capacity, segments[last]);
      FittingSegmentsAreDelivered(capacity, segments[..last]);
      assert Deliveries(segments) == Deliveries(segments[..last]) + [SS.Delivered(segments[last])];
    }
  }

  /** The bytes written out are the start of the published items, back to back. */
  lemma WrittenIsStartOfPublished(capacity: nat, link: Link)
    requires Invariant(capacity, link)
    ensures link.written <= Flatten(link.log.published)
  {
    hide Flatten;
    hide SS.Agrees;
    var waiting := CO.Waiting(link.log.memory);
    FlattenConcat(link.log.committed, waiting);
    if link.pending.Some? {
      assert waiting == [link.pending.value];
      FlattenOne(link.pending.value);
    }
    PrefixBehind(Flatten(link.log.committed), WrittenPart(link), Flatten(waiting));
  }

  /** The stream given to the receiver's parser is the start of the published items, back to back. */
  lemma AcceptedIsStartOfPublished(capacity: nat, link: Link) returns (more: seq<byte>)
    requires Invariant(capacity, link)
    ensures Flatten(link.log.published) == link.run.accepted + more
  {
    hide Flatten;
    hide SS.Agrees;
    hide CO.Conserves;
    WrittenIsStartOfPublished(capacity, link);
    var all := Flatten(link.log.published);
    RestBehindPart(link.run.accepted, link.incoming, link.written, link.arrived, all);
    more := all[|link.run.accepted|..];
  }

  lemma BodiesFit(capacity: nat, items: seq<seq<byte>>)
    requires AllFramed(capacity, items)
    ensures forall i :: 0 <= i < |items| ==> FitsReceiver(capacity, Bodies(items)[i])
  {
    forall i | 0 <= i < |items|
      ensures FitsReceiver(capacity, Bodies(items)[i])
    {
      assert Framed(capacity, items[i]);
    }
  }

  /** The complete segments of what the receiver accepted are the first published bodies. */
  lemma AcceptedSegmentsArePublished(capacity: nat, link: Link)
    requires Invariant(capacity, link) && AllFramed(capacity, link.log.published)
    ensures SS.SplitAtZeros(link.run.accepted).segments <= Bodies(link.log.published)
  {
    hide Framed;
    hide Invariant;
    hide SS.SplitAtZeros;
    var more := AcceptedIsStartOfPublished(capacity, link);
    SplitOfPrefix(link.run.accepted, more);
    FramedItemsSplitIntoBodies(capacity, link.log.published);
  }

  /** A prefix of fitting bodies is delivered as a prefix of their deliveries. */
  lemma PrefixIsDelivered(capacity: nat, segments: seq<seq<byte>>, bodies: seq<seq<byte>>)
    requires segments <= bodies && forall i :: 0 <= i < |bodies| ==> FitsReceiver(capacity, bodies[i])
    ensures SS.Outcomes(capacity, segments) <= Deliveries(bodies)
  {
    hide FitsReceiver;
    FittingSegmentsAreDelivered(capacity, segments);
    assert Deliveries(bodies)[..|segments|] == Deliveries(segments);
  }

  /**
   Delivery: in every run between resets, the bodies consumed, and the one held, are the bodies of the
   published items in order, each exactly once, with nothing dropped, up to some point.
   */
  lemma DeliversInOrderOnce(capacity: nat, start: Link, steps: seq<Step>)
    requires Invariant(capacity, start)
    requires AllFramed(capacity, Perform(capacity, start, steps).log.published)
    ensures var end := Perform(capacity, start, steps);
            end.run.events + SS.Held(end.run.phase) <= Deliveries(Bodies(end.log.published))
  {
    hide Framed;
    hide FitsReceiver;
    hide Next;
    hide SS.SplitAtZeros;
    hide SS.Outcomes;
    var end := Perform(capacity, start, steps);
    AcceptedSegmentsArePublished(capacity, end);
    BodiesFit(capacity, end.log.published);
    PrefixIsDelivered(capacity, SS.SplitAtZeros(end.run.accepted).segments, Bodies(end.log.published));
  }

  /** Nothing waits anywhere between the publisher and the receiver's parser. */
  ghost predicate Drained(link: Link) {
    link.log.memory.state == CO.IDLE && link.arrived == |link.written| && link.incoming == []
  }

  /** Completeness: once a run has drained the link, every published body has been delivered or is held. */
  lemma DrainedLinkDeliveredEverything(capacity: nat, start: Link, steps: seq<Step>)
    requires Invariant(capacity, start)
    requires AllFramed(capacity, Perform(capacity, start, steps).log.published)
    requires Drained(Perform(capacity, start, steps))
    ensures var end := Perform(capacity, start, steps);
            end.run.events + SS.Held(end.run.phase) == Deliveries(Bodies(end.log.published))
  {
    var end := Perform(capacity, start, steps);
    assert end.log.committed + [] == end.log.committed;
    assert Flatten(end.log.committed) + [] == Flatten(end.log.committed);
    assert end.written[..end.arrived] == end.written && end.run.accepted + [] == end.run.accepted;
    FramedItemsSplitIntoBodies(capacity, end.log.published);
    var bodies := Bodies(end.log.published);
    BodiesFit(capacity, end.log.published);
    FittingSegmentsAreDelivered(capacity, bodies);
  }

  // ---------------------------------------------------------------------------
  // Every link can be drained
  // ---------------------------------------------------------------------------

  lemma {:induction false} PerformConcat(capacity: nat, link: Link, a: seq<Step>, b: seq<Step>)
    requires Invariant(capacity, link)
    ensures Perform(capacity, link, a + b) == Perform(capacity, Perform(capacity, link, a), b)
    decreases |a|
  {
    hide Next;
    if a == [] {
      assert a + b == b;
    } else {
      assert (a + b)[0] == a[0] && (a + b)[1..] == a[1..] + b;
      NextKeeps(capacity, link, a[0]);
      PerformConcat(capacity, Next(capacity, link, a[0]), a[1..], b);
    }
  }

  lemma PerformOne(capacity: nat, link: Link, step: Step)
    requires Invariant(capacity, link)
    ensures Perform(capacity, link, [step]) == Next(capacity, link, step)
  {
    hide Next;
    hide Invariant;
    NextKeeps(capacity, link, step);
    assert [step][1..] == [];
  }

  /** The sender's side is idle: everything published has been written out. */
  ghost predicate WrittenOut(link: Link) {
    link.log.memory.state == CO.IDLE && link.pending.None?
  }

  /** One servicing call whose writer accepts the whole rest leaves the sender idle. */
  lemma OneWriteEmptiesSlot(capacity: nat, link: Link) returns (steps: seq<Step>)
    requires Invariant(capacity, link)
    ensures var end := Perform(capacity, link, steps);
            WrittenOut(end) && end.log.published == link.log.published
  {
    var taken := SV.Taken(Outgoing(link));
    if taken.pending.None? {
      steps := [];
    } else {
      var step := Service(|taken.pending.value| - taken.offset);
      steps := [step];
      PerformOne(capacity, link, step);
    }
  }

  /** One arrival brings everything written to the receiver's servicer. */
  lemma OneArrivalBringsEverything(capacity: nat, link: Link) returns (steps: seq<Step>)
    requires Invariant(capacity, link) && WrittenOut(link)
    ensures var end := Perform(capacity, link, steps);
            WrittenOut(end) && end.log == link.log && end.arrived == |end.written|
  {
    var step := Arrive(|link.written| - link.arrived);
    steps := [step];
    PerformOne(capacity, link, step);
  }

  /** Taking a held body, or offering the retained bytes again, leaves less to do at the receiver. */
  lemma RetryMakesProgress(capacity: nat, link: Link)
    requires Invariant(capacity, link) && WrittenOut(link) && link.arrived == |link.written|
    requires link.incoming != [] || link.run.phase.Holding?
    ensures var next := Next(capacity, link, if link.run.phase.Holding? then TakeBody else Arrive(0));
            && WrittenOut(next) && next.arrived == |next.written| && next.log == link.log
            && if link.run.phase.Holding? then !next.run.phase.Holding? && next.incoming == link.incoming
               else |next.incoming| < |link.incoming|
  {
    hide SS.Agrees;
    hide CO.Conserves;
    hide SP.PushChunk;
    hide Flatten;
    assert link.incoming + [] == link.incoming;
    SS.PushMakesProgress(capacity, link.run.phase, link.incoming);
  }

  /** Retrying the retained bytes, and taking each body, leaves nothing retained or held. */
  lemma {:induction false} RetriesEmptyTheReceiver(capacity: nat, link: Link) returns (steps: seq<Step>)
    requires Invariant(capacity, link) && WrittenOut(link) && link.arrived == |link.written|
    ensures var end := Perform(capacity, link, steps);
            Drained(end) && !end.run.phase.Holding? && end.log == link.log
    decreases |link.incoming|, if link.run.phase.Holding? then 1 else 0
  {
    if link.incoming == [] && !link.run.phase.Holding? {
      steps := [];
    } else {
      var step := if link.run.phase.Holding? then TakeBody else Arrive(0);
      var next := Next(capacity, link, step);
      NextKeeps(capacity, link, step);
      RetryMakesProgress(capacity, link);
      hide Next;
      hide Invariant;
      var more := RetriesEmptyTheReceiver(capacity, next);
      steps := [step] + more;
      PerformOne(capacity, link, step);
      PerformConcat(capacity, link, [step], more);
    }
  }

  /** From every reachable link some writes, arrivals and takings, and no publication, drain it. */
  lemma EveryLinkCanBeDrained(capacity: nat, link: Link) returns (steps: seq<Step>)
    requires Invariant(capacity, link)
    ensures var end := Perform(capacity, link, steps);
            Drained(end) && !end.run.phase.Holding? && end.log.published == link.log.published
  {
    var writes := OneWriteEmptiesSlot(capacity, link);
    var written := Perform(capacity, link, writes);
    var arrivals := OneArrivalBringsEverything(capacity, written);
    var arrived := Perform(capacity, written, arrivals);
    var retries := RetriesEmptyTheReceiver(capacity, arrived);
    PerformConcat(capacity, link, writes, arrivals);
    PerformConcat(capacity, link, writes + arrivals, retries);
    steps := writes + arrivals + retries;
  }

  /** So delivery can always be completed: every published body, in order, each once. */
  lemma EveryPublicationCanBeDelivered(capacity: nat, start: Link, steps: seq<Step>) returns (more: seq<Step>)
    requires Invariant(capacity, start)
    requires AllFramed(capacity, Perform(capacity, start, steps).log.published)
    ensures Perform(capacity, start, steps + more).run.events
         == Deliveries(Bodies(Perform(capacity, start, steps).log.published))
  {
    var middle := Perform(capacity, start, steps);
    more := EveryLinkCanBeDrained(capacity, middle);
    PerformConcat(capacity, start, steps, more);
    DrainedLinkDeliveredEverything(capacity, start, steps + more);
    var end := Perform(capacity, start, steps + more);
    assert end.run.events + [] == end.run.events;
  }

  // ---------------------------------------------------------------------------
  // Acknowledged publications
  // ---------------------------------------------------------------------------

  lemma NextPublishes(capacity: nat, link: Link, step: Step)
    requires Invariant(capacity, link)
    ensures link.log.published <= Next(capacity, link, step).log.published
  {
    if step.Publish? {
      CO.PublicationEntersOrRepeats(link.log, step.item);
    }
  }

  lemma {:induction false} PublishedGrows(capacity: nat, link: Link, steps: seq<Step>)
    requires Invariant(capacity, link)
    ensures link.log.published <= Perform(capacity, link, steps).log.published
    decreases |steps|
  {
    if steps == [] {
    } else {
      NextKeeps(capacity, link, steps[0]);
      NextPublishes(capacity, link, steps[0]);
      PublishedGrows(capacity, Next(capacity, link, steps[0]), steps[1..]);
    }
  }

  /** Step `i` of the run is a publication that the slot answers with Ok. */
  ghost predicate AcknowledgedAt(capacity: nat, start: Link, steps: seq<Step>, i: nat)
    requires Invariant(capacity, start) && i < |steps|
  {
    steps[i].Publish? && CO.AfterPublish(Perform(capacity, start, steps[..i]).log.memory, steps[i].item).1 == T.Ok
  }

  /** Nothing that was acknowledged is lost: the item is among those the run has published. */
  lemma {:induction false} AcknowledgedIsPublished(capacity: nat, start: Link, steps: seq<Step>, i: nat)
    requires Invariant(capacity, start) && i < |steps| && AcknowledgedAt(capacity, start, steps, i)
    ensures steps[i].item in Perform(capacity, start, steps).log.published
    decreases |steps|
  {
    assert SV.Sound(Outgoing(start));
    hide Invariant;
    NextKeeps(capacity, start, steps[0]);
    var next, rest := Next(capacity, start, steps[0]), steps[1..];
    if i == 0 {
      assert Perform(capacity, start, steps[..0]) == start;
      AcknowledgedEntersNow(capacity, start, steps[0]);
      PublishedGrows(capacity, next, rest);
    } else {
      hide Next;
      assert steps[..i][0] == steps[0] && steps[..i][1..] == rest[..i - 1];
      AcknowledgedIsPublished(capacity, next, rest, i - 1);
    }
  }

  lemma AcknowledgedEntersNow(capacity: nat, link: Link, step: Step)
    requires Invariant(capacity, link) && step.Publish? && CO.AfterPublish(link.log.memory, step.item).1 == T.Ok
    ensures step.item in Next(capacity, link, step).log.published
  {
    CO.PublicationEntersOrRepeats(link.log, step.item);
  }

  /** So every publication the slot has answered with Ok can be brought to the receiver by some further steps. */
  lemma EveryAcknowledgedItemCanBeDelivered(capacity: nat, start: Link, steps: seq<Step>, i: nat)
    returns (more: seq<Step>)
    requires Invariant(capacity, start) && i < |steps| && AcknowledgedAt(capacity, start, steps, i)
    requires AllFramed(capacity, Perform(capacity, start, steps).log.published)
    ensures SS.Delivered(Body(steps[i].item)) in Perform(capacity, start, steps + more).run.events
  {
    AcknowledgedIsPublished(capacity, start, steps, i);
    var published := Perform(capacity, start, steps).log.published;
    var k :| 0 <= k < |published| && published[k] == steps[i].item;
    more := EveryPublicationCanBeDelivered(capacity, start, steps);
    assert Deliveries(Bodies(published))[k] == SS.Delivered(Body(steps[i].item));
  }

  /** On a link in use servicing never fails, and it reports a commit exactly when an item is committed. */
  lemma ServiceReports(capacity: nat, link: Link, answer: int)
    requires Invariant(capacity, link)
    ensures var result, after := SV.ServiceOutput(Outgoing(link), answer).result, Next(capacity, link, Service(answer));
            && !result.UnexpectedStatus?
            && (result.Serviced? ==> |after.written| == |link.written| + result.accepted)
            && (result.BadWriterCount? ==> after.written == link.written)
            && (result.Serviced? && result.commitStatus.Some? ==> result.commitStatus.value == T.Ok)
            && (result.Serviced? && result.commitStatus.Some? <==> |after.log.committed| == |link.log.committed| + 1)
  {
    SV.ServiceAnswers(Outgoing(link), answer);
  }

  /** The state after a reset of both ends, with nothing in flight. */
  function AfterReset(memory: CO.Memory): Link {
    Link(CO.Log(CO.AfterReset(memory), [], []), None, 0, [], 0, [], SS.START)
  }

  /** Every reset starts a run of its own. */
  lemma ResetStartsRun(capacity: nat, memory: CO.Memory)
    requires |memory.bytes| == CO.CAPACITY
    ensures Invariant(capacity, AfterReset(memory))
  {
  }
}

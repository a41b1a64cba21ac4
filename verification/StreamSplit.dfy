/**
 What the stream parser computes over whole runs: the stream split at its zero bytes.

 A run is any sequence of pushes, of any chunks, and body consumptions. Whatever the chunking and
 however long a body stays unread, what a run reports is decided by the bytes it accepted alone.
 */
module StreamSplit {
  import opened Sequences
  import opened Wire
  import opened StreamParser

  // ---------------------------------------------------------------------------
  // The reference: splitting at zeros
  // ---------------------------------------------------------------------------

  datatype Split = Split(segments: seq<seq<byte>>, rest: seq<byte>)

  function SplitAtZeros(stream: seq<byte>): Split
    decreases |stream|
  {
    if stream == [] then Split([], [])
    else
      var before := SplitAtZeros(stream[..|stream| - 1]);
      var last := stream[|stream| - 1];
      if last == 0 then Split(before.segments + [before.rest], [])
      else before.(rest := before.rest + [last])
  }

  ghost predicate ZeroFree(s: seq<byte>) {
    forall i :: 0 <= i < |s| ==> s[i] != 0
  }

  ghost predicate AllZeroFree(segments: seq<seq<byte>>) {
    forall i :: 0 <= i < |segments| ==> ZeroFree(segments[i])
  }

  /** Segments put back into a stream, each closed by a delimiter. */
  function Join(segments: seq<seq<byte>>): seq<byte>
    decreases |segments|
  {
    if segments == [] then []
    else
      var last := |segments| - 1;
      Join(segments[..last]) + segments[last] + [0]
  }

  lemma JoinSnoc(segments: seq<seq<byte>>, segment: seq<byte>)
    ensures Join(segments + [segment]) == Join(segments) + segment + [0]
  {
    assert (segments + [segment])[..|segments|] == segments;
  }

  lemma SplitSnoc(stream: seq<byte>, b: byte)
    ensures SplitAtZeros(stream + [b]) ==
            var before := SplitAtZeros(stream);
            if b == 0 then Split(before.segments + [before.rest], []) else before.(rest := before.rest + [b])
  {
    assert (stream + [b])[..|stream|] == stream;
  }

  lemma ZeroFreeSnoc(s: seq<byte>, b: byte)
    requires ZeroFree(s) && b != 0
    ensures ZeroFree(s + [b])
  {
  }

  lemma AllZeroFreeSnoc(segments: seq<seq<byte>>, segment: seq<byte>)
    requires AllZeroFree(segments) && ZeroFree(segment)
    ensures AllZeroFree(segments + [segment])
  {
  }

  /** The split is a cut of the stream: zero-free segments that join back to it. */
  lemma {:induction false} SplitJoins(stream: seq<byte>)
    ensures var s := SplitAtZeros(stream);
            && AllZeroFree(s.segments) && ZeroFree(s.rest)
            && Join(s.segments) + s.rest == stream
    decreases |stream|
  {
    if stream == [] {
    } else {
      assert ZeroFree([]);
      hide SplitAtZeros;
      hide Join;
      hide ZeroFree;
      hide AllZeroFree;
      var init, last := stream[..|stream| - 1], stream[|stream| - 1];
      var before := SplitAtZeros(init);
      assert stream == init + [last];
      SplitJoins(init);
      SplitSnoc(init, last);
      if last == 0 {
        AllZeroFreeSnoc(before.segments, before.rest);
        JoinSnoc(before.segments, before.rest);
        assert stream + [] == stream;
      } else {
        ZeroFreeSnoc(before.rest, last);
        Associate(Join(before.segments), before.rest, [last]);
      }
    }
  }

  lemma {:induction false} SplitAppend(stream: seq<byte>, tail: seq<byte>)
    requires ZeroFree(tail)
    ensures SplitAtZeros(stream + tail) == SplitAtZeros(stream).(rest := SplitAtZeros(stream).rest + tail)
    decreases |tail|
  {
    hide SplitAtZeros;
    var rest := SplitAtZeros(stream).rest;
    if tail == [] {
      assert stream + tail == stream && rest + tail == rest;
    } else {
      var init, last := tail[..|tail| - 1], tail[|tail| - 1];
      assert tail == init + [last];
      SplitAppend(stream, init);
      SplitSnoc(stream + init, last);
      Associate(stream, init, [last]);
      Associate(rest, init, [last]);
    }
  }

  /** The split is the only way to cut a stream into zero-free segments closed by delimiters. */
  lemma {:induction false} SplitIsUnique(segments: seq<seq<byte>>, rest: seq<byte>)
    requires AllZeroFree(segments) && ZeroFree(rest)
    ensures SplitAtZeros(Join(segments) + rest) == Split(segments, rest)
    decreases |segments|
  {
    SplitAppend(Join(segments), rest);
    if segments == [] {
    } else {
      hide SplitAtZeros;
      hide Join;
      var last := |segments| - 1;
      var init, segment := segments[..last], segments[last];
      assert init + [segment] == segments;
      SplitIsUnique(init, segment);
      SplitSnoc(Join(init) + segment, 0);
      JoinSnoc(init, segment);
      assert [] + rest == rest;
    }
  }

  datatype Event = Delivered(body: seq<byte>) | Dropped

  /** Empty segments vanish, segments within capacity are bodies, each longer one is one discard. */
  function Outcome(capacity: nat, segment: seq<byte>): seq<Event> {
    if segment == [] then [] else if |segment| <= capacity then [Delivered(segment)] else [Dropped]
  }

  function Outcomes(capacity: nat, segments: seq<seq<byte>>): seq<Event>
    decreases |segments|
  {
    if segments == [] then []
    else
      var last := |segments| - 1;
      Outcomes(capacity, segments[..last]) + Outcome(capacity, segments[last])
  }

  /** What a stream means: the events of its complete segments. */
  function Meaning(capacity: nat, stream: seq<byte>): seq<Event> {
    Outcomes(capacity, SplitAtZeros(stream).segments)
  }

  // ---------------------------------------------------------------------------
  // Runs of the parser
  // ---------------------------------------------------------------------------

  datatype Action = Push(chunk: seq<byte>) | Take

  /** A parser, the bytes its pushes consumed so far, and what it reported so far. */
  datatype Run = Run(phase: Phase, accepted: seq<byte>, events: seq<Event>)

  const START := Run(Collecting([]), [], [])

  /** A run after a push that ended as `p`. */
  function After(run: Run, chunk: seq<byte>, p: Pushed): Run
    requires p.consumed <= |chunk|
  {
    Run(p.phase, run.accepted + chunk[..p.consumed],
        run.events + if p.result == DiscardedBody then [Dropped] else [])
  }

  function Act(capacity: nat, run: Run, action: Action): Run {
    match action
    case Push(chunk) => After(run, chunk, PushChunk(capacity, run.phase, chunk))
    case Take =>
      if run.phase.Holding? then Run(Collecting([]), run.accepted, run.events + [Delivered(run.phase.body)]) else run
  }

  function Perform(capacity: nat, run: Run, actions: seq<Action>): Run
    decreases |actions|
  {
    if actions == [] then run else Perform(capacity, Act(capacity, run, actions[0]), actions[1..])
  }

  /** The body that is complete and not yet consumed. */
  function Held(phase: Phase): seq<Event> {
    if phase.Holding? then [Delivered(phase.body)] else []
  }

  ghost predicate HoldsRest(capacity: nat, phase: Phase, rest: seq<byte>) {
    match phase
    case Holding(_) => rest == []
    case Skipping => |rest| > capacity
    case Collecting(body) => rest == body && |body| <= capacity
  }

  /** What every run keeps. */
  ghost predicate Agrees(capacity: nat, run: Run) {
    && run.events + Held(run.phase) == Meaning(capacity, run.accepted)
    && HoldsRest(capacity, run.phase, SplitAtZeros(run.accepted).rest)
  }

  lemma StepAgrees(capacity: nat, run: Run, b: byte)
    requires Agrees(capacity, run) && !run.phase.Holding?
    ensures var (next, result) := Step(capacity, run.phase, b);
            Agrees(capacity, Run(next, run.accepted + [b],
                                 run.events + if result == DiscardedBody then [Dropped] else []))
  {
    SplitSnoc(run.accepted, b);
    var before := SplitAtZeros(run.accepted);
    var segments := before.segments + [before.rest];
    assert segments[..|segments| - 1] == before.segments;
    assert run.events + [] == run.events;
  }

  lemma AfterOneMore(run: Run, next: Run, chunk: seq<byte>, rest: Pushed)
    requires chunk != [] && rest.consumed <= |chunk| - 1
    requires next.accepted == run.accepted + [chunk[0]] && next.events == run.events
    ensures After(next, chunk[1..], rest) == After(run, chunk, rest.(consumed := rest.consumed + 1))
  {
    assert [chunk[0]] + chunk[1..][..rest.consumed] == chunk[..rest.consumed + 1];
    assert run.accepted + [chunk[0]] + chunk[1..][..rest.consumed]
           == run.accepted + ([chunk[0]] + chunk[1..][..rest.consumed]);
  }

  lemma {:induction false} PushFromAgrees(capacity: nat, run: Run, chunk: seq<byte>, last: PushResult)
    requires Agrees(capacity, run) && !run.phase.Holding? && !Stops(last)
    ensures Agrees(capacity, After(run, chunk, PushFrom(capacity, run.phase, chunk, last)))
    decreases |chunk|
  {
    if chunk == [] {
      assert After(run, chunk, PushFrom(capacity, run.phase, chunk, last)) == run;
    } else {
      var (phase, result) := Step(capacity, run.phase, chunk[0]);
      StepAgrees(capacity, run, chunk[0]);
      hide Agrees;
      if Stops(result) {
        assert chunk[..1] == [chunk[0]];
      } else {
        assert run.events + [] == run.events;
        var next := Run(phase, run.accepted + [chunk[0]], run.events);
        PushFromAgrees(capacity, next, chunk[1..], result);
        AfterOneMore(run, next, chunk, PushFrom(capacity, phase, chunk[1..], result));
      }
    }
  }

  lemma ActAgrees(capacity: nat, run: Run, action: Action)
    requires Agrees(capacity, run)
    ensures Agrees(capacity, Act(capacity, run, action))
  {
    match action
    case Push(chunk) =>
      if run.phase.Holding? {
        assert run.accepted + chunk[..0] == run.accepted && run.events + [] == run.events;
      } else {
        PushFromAgrees(capacity, run, chunk, NeedMoreData);
      }
    case Take =>
  }

  lemma {:induction false} PerformAgrees(capacity: nat, run: Run, actions: seq<Action>)
    requires Agrees(capacity, run)
    ensures Agrees(capacity, Perform(capacity, run, actions))
    decreases |actions|
  {
    if actions == [] {
    } else {
      ActAgrees(capacity, run, actions[0]);
      PerformAgrees(capacity, Act(capacity, run, actions[0]), actions[1..]);
    }
  }

  /**
   The parser refines splitting at zeros: in every run, what was reported, with the body still held, is
   the meaning of the bytes accepted, and the bytes since the last delimiter are what it is collecting.
   */
  lemma RunRefinesSplit(capacity: nat, actions: seq<Action>)
    ensures var run := Perform(capacity, START, actions);
            && run.events + Held(run.phase) == Meaning(capacity, run.accepted)
            && HoldsRest(capacity, run.phase, SplitAtZeros(run.accepted).rest)
  {
    PerformAgrees(capacity, START, actions);
  }

  /** Two runs that accepted the same bytes and hold no body reported the same events. */
  lemma ChunkingDoesNotMatter(capacity: nat, one: seq<Action>, two: seq<Action>)
    requires var r, s := Perform(capacity, START, one), Perform(capacity, START, two);
             r.accepted == s.accepted && !r.phase.Holding? && !s.phase.Holding?
    ensures Perform(capacity, START, one).events == Perform(capacity, START, two).events
  {
    var r, s := Perform(capacity, START, one), Perform(capacity, START, two);
    RunRefinesSplit(capacity, one);
    RunRefinesSplit(capacity, two);
    assert r.events + [] == r.events && s.events + [] == s.events;
  }

  // ---------------------------------------------------------------------------
  // What a push answers
  // ---------------------------------------------------------------------------

  /** What the bytes accepted so far call for: their last segment, complete or not, decides alone. */
  function Answer(capacity: nat, accepted: seq<byte>): PushResult {
    var s := SplitAtZeros(accepted);
    if |s.rest| > capacity then Discarding
    else if s.rest != [] || s.segments == [] then NeedMoreData
    else
      var closed := s.segments[|s.segments| - 1];
      if closed == [] then NeedMoreData else if |closed| <= capacity then BodyReady else DiscardedBody
  }

  lemma StepAnswers(capacity: nat, run: Run, b: byte)
    requires Agrees(capacity, run) && !run.phase.Holding?
    ensures Step(capacity, run.phase, b).1 == Answer(capacity, run.accepted + [b])
  {
    SplitSnoc(run.accepted, b);
  }

  lemma {:induction false} PushFromAnswers(capacity: nat, run: Run, chunk: seq<byte>, last: PushResult)
    requires Agrees(capacity, run) && !run.phase.Holding? && chunk != []
    ensures var p := PushFrom(capacity, run.phase, chunk, last);
            p.result == Answer(capacity, After(run, chunk, p).accepted)
    decreases |chunk|
  {
    var (phase, result) := Step(capacity, run.phase, chunk[0]);
    StepAgrees(capacity, run, chunk[0]);
    StepAnswers(capacity, run, chunk[0]);
    assert chunk[..1] == [chunk[0]];
    if !Stops(result) {
      assert run.events + [] == run.events;
      var next := Run(phase, run.accepted + [chunk[0]], run.events);
      if |chunk| > 1 {
        PushFromAnswers(capacity, next, chunk[1..], result);
      }
      AfterOneMore(run, next, chunk, PushFrom(capacity, phase, chunk[1..], result));
    }
  }

  /**
   In every run, what a push answers is decided by the bytes accepted, this push's included: whether the
   unfinished segment has outgrown the capacity, and what became of the segment just closed.
   */
  lemma PushAnswersForStream(capacity: nat, actions: seq<Action>, chunk: seq<byte>)
    requires !Perform(capacity, START, actions).phase.Holding?
    ensures var run := Perform(capacity, START, actions);
            PushChunk(capacity, run.phase, chunk).result
            == if chunk == [] then NeedMoreData else Answer(capacity, Act(capacity, run, Push(chunk)).accepted)
  {
    RunRefinesSplit(capacity, actions);
    if chunk != [] {
      PushFromAnswers(capacity, Perform(capacity, START, actions), chunk, NeedMoreData);
    }
  }

  lemma {:induction false} PushFromReports(capacity: nat, phase: Phase, chunk: seq<byte>, last: PushResult)
    requires !phase.Holding? && chunk != []
    ensures var p := PushFrom(capacity, phase, chunk, last);
            && (p.result == Discarding <==> p.phase.Skipping?)
            && (p.result == BodyReady <==> p.phase.Holding?)
            && (p.result == NeedMoreData ==> p.phase.Collecting?)
            && (p.result == DiscardedBody ==> p.phase == Collecting([]))
    decreases |chunk|
  {
    var (next, result) := Step(capacity, phase, chunk[0]);
    if !Stops(result) && |chunk| > 1 {
      PushFromReports(capacity, next, chunk[1..], result);
    }
  }

  /** From any phase, a push that takes in bytes reports a discard under way exactly when it ends in one. */
  lemma PushReportsPhase(capacity: nat, phase: Phase, chunk: seq<byte>)
    requires !phase.Holding? && chunk != []
    ensures var p := PushChunk(capacity, phase, chunk);
            && (p.result == Discarding <==> p.phase.Skipping?)
            && (p.result == BodyReady <==> p.phase.Holding?)
            && (p.result == NeedMoreData ==> p.phase.Collecting?)
            && (p.result == DiscardedBody ==> p.phase == Collecting([]))
  {
    PushFromReports(capacity, phase, chunk, NeedMoreData);
  }

  // ---------------------------------------------------------------------------
  // Progress, retention, resynchronisation
  // ---------------------------------------------------------------------------

  lemma {:induction false} PushFromConsumesAll(capacity: nat, phase: Phase, chunk: seq<byte>, last: PushResult)
    requires !phase.Holding? && !Stops(last)
    ensures var p := PushFrom(capacity, phase, chunk, last);
            && (chunk != [] ==> p.consumed > 0)
            && (!Stops(p.result) ==> p.consumed == |chunk|)
            && (p.phase.Holding? <==> p.result == BodyReady)
    decreases |chunk|
  {
    if chunk == [] {
    } else {
      var (next, result) := Step(capacity, phase, chunk[0]);
      if !Stops(result) {
        PushFromConsumesAll(capacity, next, chunk[1..], result);
      }
    }
  }

  /** A push stops short only when it has something to report, and it always moves unless a body is held. */
  lemma PushMakesProgress(capacity: nat, phase: Phase, chunk: seq<byte>)
    ensures var p := PushChunk(capacity, phase, chunk);
            && (!phase.Holding? && chunk != [] ==> p.consumed > 0)
            && (p.consumed < |chunk| ==> p.result == BodyReady || p.result == DiscardedBody)
            && (p.phase.Holding? <==> p.result == BodyReady)
            && (phase.Holding? ==> p.consumed == 0 && p.phase == phase)
  {
    if !phase.Holding? {
      PushFromConsumesAll(capacity, phase, chunk, NeedMoreData);
    }
  }

  ghost predicate OnlyPushes(actions: seq<Action>) {
    forall i :: 0 <= i < |actions| ==> actions[i].Push?
  }

  /** No sequence of pushes alters an unread body, accepts a byte or reports anything. */
  lemma {:induction false} UnreadBodyIsKept(capacity: nat, run: Run, actions: seq<Action>)
    requires run.phase.Holding? && OnlyPushes(actions)
    ensures Perform(capacity, run, actions) == run
    decreases |actions|
  {
    if actions == [] {
    } else {
      var chunk := actions[0].chunk;
      assert run.accepted + chunk[..0] == run.accepted && run.events + [] == run.events;
      UnreadBodyIsKept(capacity, run, actions[1..]);
    }
  }

  lemma {:induction false} PerformConcat(capacity: nat, run: Run, a: seq<Action>, b: seq<Action>)
    ensures Perform(capacity, run, a + b) == Perform(capacity, Perform(capacity, run, a), b)
    decreases |a|
  {
    if a == [] {
      assert a + b == b;
    } else {
      assert (a + b)[1..] == a[1..] + b;
      PerformConcat(capacity, Act(capacity, run, a[0]), a[1..], b);
    }
  }

  /** Retrying the unconsumed suffix, with bodies taken in between, gets any stream through. */
  lemma {:induction false} RetryAcceptsEverything(capacity: nat, run: Run, stream: seq<byte>)
    returns (actions: seq<Action>)
    requires !run.phase.Holding?
    ensures Perform(capacity, run, actions).accepted == run.accepted + stream
    ensures !Perform(capacity, run, actions).phase.Holding?
    decreases |stream|
  {
    if stream == [] {
      return [];
    }
    PushMakesProgress(capacity, run.phase, stream);
    var p := PushChunk(capacity, run.phase, stream);
    var pushed := Act(capacity, run, Push(stream));
    var taken := Act(capacity, pushed, Take);
    assert Perform(capacity, run, [Push(stream), Take]) == taken by {
      assert [Push(stream), Take][1..] == [Take] && [Take][1..] == [];
    }
    var more := RetryAcceptsEverything(capacity, taken, stream[p.consumed..]);
    actions := [Push(stream), Take] + more;
    PerformConcat(capacity, run, [Push(stream), Take], more);
    assert run.accepted + stream[..p.consumed] + stream[p.consumed..] == run.accepted + stream;
  }

  lemma SplitAfterDelimiter(before: seq<byte>, body: seq<byte>)
    requires ZeroFree(body)
    ensures var s := SplitAtZeros(before + [0] + body + [0]);
            && s.rest == [] && s.segments == SplitAtZeros(before + [0]).segments + [body]
  {
    SplitSnoc(before, 0);
    SplitAppend(before + [0], body);
    SplitSnoc(before + [0] + body, 0);
    assert [] + body == body;
  }

  /**
   Resynchronisation: whatever came before, lost or oversized, once a delimiter has passed the next
   body that fits comes out whole, as the last thing reported or held.
   */
  lemma ResynchronisesAtDelimiter(capacity: nat, actions: seq<Action>, before: seq<byte>, body: seq<byte>)
    requires ZeroFree(body) && 1 <= |body| <= capacity
    requires Perform(capacity, START, actions).accepted == before + [0] + body + [0]
    ensures var run := Perform(capacity, START, actions);
            run.events + Held(run.phase) == Meaning(capacity, before + [0]) + [Delivered(body)]
  {
    RunRefinesSplit(capacity, actions);
    SplitAfterDelimiter(before, body);
    var segments := SplitAtZeros(before + [0]).segments + [body];
    assert segments[..|segments| - 1] == SplitAtZeros(before + [0]).segments;
  }
}

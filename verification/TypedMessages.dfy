/**
 The documented content of the modelled messages: named categories and conditions, flags that are on or off,
 a tick that is there or not, and records whose data is a peripheral value. A body is valid exactly when it
 is some such content, and then of one content only.
 */
module TypedMessages {
  import opened Wire
  import opened Records
  import opened Messages
  import opened PeripheralValues
  import opened RecordLists

  datatype Category = Hardware | Execution | Timeout | RetainedData | Protocol | InternalFault

  datatype Condition = Sound | Partial | ExecutionProblem

  /** A record with its value. */
  datatype Item = Item(peripheral: int, channel: int, value: Value)

  datatype Version = Version(major: int, minor: int, patch: int)

  datatype Content =
    | UpdateOf(tick: int, more: bool, items: seq<Item>)
    | ResultOf(tick: int, condition: Condition, more: bool, problemDetail: int, items: seq<Item>)
    | DataOf(dataId: int, payload: seq<byte>)
    | ErrorOf(category: Category, recoverable: bool, when: Option<int>, detail: int, diagnostic: seq<byte>)
    | InfoOf(protocol: Version, firmware: Version, diagnostic: seq<byte>, gitHash: seq<byte>)

  function CategoryNumber(c: Category): int {
    match c
    case Hardware => 1
    case Execution => 2
    case Timeout => 3
    case RetainedData => 4
    case Protocol => 5
    case InternalFault => 6
  }

  function ConditionNumber(c: Condition): int {
    match c
    case Sound => 0
    case Partial => 1
    case ExecutionProblem => 2
  }

  function OnOff(on: bool): byte {
    if on then 1 else 0
  }

  ghost predicate ItemIs(ctx: Context, kind: Kind, item: Item, r: Record) {
    && item.peripheral == r.peripheral && item.channel == r.channel as int
    && |r.data| <= ctx.maxVariable && Spells(kind, item.peripheral, item.channel, item.value, r.data)
  }

  /** The records of a message are these items, in this order, each for a channel of its own. */
  ghost predicate ItemsAre(ctx: Context, kind: Kind, items: seq<Item>, records: seq<Record>) {
    && |items| == |records|
    && (forall i :: 0 <= i < |items| ==> ItemIs(ctx, kind, items[i], records[i]))
    && Distinct(records)
  }

  /** A length-prefixed span: at most 255 bytes, and at most as many as the context allows. */
  predicate ShortSpan(ctx: Context, span: seq<byte>) {
    |span| <= 255 && |span| <= ctx.maxVariable
  }

  /** The body says this, within the limits of the context. */
  ghost predicate Says(ctx: Context, body: Body, content: Content) {
    match content
    case UpdateOf(tick, more, items) =>
      && body.Update? && body.tick == tick < ctx.maxTicks && body.flags == OnOff(more)
      && items != [] && ItemsAre(ctx, Operations, items, body.operations)
    case ResultOf(tick, condition, more, detail, items) =>
      && body.Captured? && body.tick == tick < ctx.maxTicks && body.flags == OnOff(more)
      && body.condition == ConditionNumber(condition) && body.problemDetail == detail
      && (condition == Sound ==> detail == 0) && ItemsAre(ctx, Captures, items, body.captures)
    case DataOf(dataId, payload) =>
      body.Arbitrary? && body.dataId == dataId && body.payload == payload && |payload| <= ctx.maxVariable
    case ErrorOf(category, recoverable, when, detail, diagnostic) =>
      && body.Error? && body.category == CategoryNumber(category) && body.recoverable == OnOff(recoverable)
      && body.hasTick == OnOff(when.Some?) && body.tick == (if when.Some? then when.value else 0)
      && (when.Some? ==> when.value < ctx.maxTicks)
      && body.detail == detail && body.diagnostic == diagnostic && ShortSpan(ctx, diagnostic)
    case InfoOf(protocol, firmware, diagnostic, gitHash) =>
      && body.SystemInfo?
      && protocol == Version(body.protocolMajor, body.protocolMinor, body.protocolPatch)
      && firmware == Version(body.firmwareMajor, body.firmwareMinor, body.firmwarePatch)
      && protocol.major <= 255 && protocol.minor <= 255
      && body.diagnostic == diagnostic && ShortSpan(ctx, diagnostic)
      && body.gitHash == gitHash && ShortSpan(ctx, gitHash)
  }

  /** The items of an accepted list. */
  lemma {:induction false} ItemsOf(ctx: Context, kind: Kind, records: seq<Record>) returns (items: seq<Item>)
    requires AllAcceptable(ctx, kind, records)
    ensures |items| == |records| && forall i :: 0 <= i < |items| ==> ItemIs(ctx, kind, items[i], records[i])
    decreases |records|
  {
    if records == [] {
      return [];
    }
    var last := |records| - 1;
    var r := records[last];
    var v := AcceptedIsSpelled(ctx, kind, r.peripheral, r.channel, r.data);
    AcceptedExactlyWhenSpelled(ctx, kind, r.peripheral, r.channel, r.data);
    var init := ItemsOf(ctx, kind, records[..last]);
    items := init + [Item(r.peripheral, r.channel as int, v)];
  }

  lemma ItemsAreAccepted(ctx: Context, kind: Kind, items: seq<Item>, records: seq<Record>)
    requires ItemsAre(ctx, kind, items, records)
    ensures ListVerdict(ctx, kind, records, {}) == Ok
  {
    hide Fields;
    hide Spells;
    forall i | 0 <= i < |records|
      ensures Fields(ctx, kind, records[i].peripheral, records[i].channel, records[i].data) == Ok
    {
      var r := records[i];
      assert ItemIs(ctx, kind, items[i], r);
      AcceptedExactlyWhenSpelled(ctx, kind, r.peripheral, r.channel, r.data);
    }
    AcceptedExactlyWhenDistinct(ctx, kind, records);
  }

  function CategoryOf(number: int): Category {
    if number == 1 then Hardware else if number == 2 then Execution else if number == 3 then Timeout
    else if number == 4 then RetainedData else if number == 5 then Protocol else InternalFault
  }

  function ConditionOf(number: int): Condition {
    if number == 0 then Sound else if number == 1 then Partial else ExecutionProblem
  }

  lemma ValidSaysSomething(ctx: Context, body: Body) returns (content: Content)
    requires BodyStatus(ctx, body) == Ok
    ensures Says(ctx, body, content)
  {
    match body
    case Update(tick, flags, operations) =>
      AcceptedExactlyWhenDistinct(ctx, Operations, operations);
      var items := ItemsOf(ctx, Operations, operations);
      content := UpdateOf(tick, flags == 1, items);
    case Captured(tick, condition, flags, detail, captures) =>
      AcceptedExactlyWhenDistinct(ctx, Captures, captures);
      var items := ItemsOf(ctx, Captures, captures);
      content := ResultOf(tick, ConditionOf(condition), flags == 1, detail, items);
    case Arbitrary(dataId, payload) =>
      content := DataOf(dataId, payload);
    case Error(category, recoverable, hasTick, tick, detail, diagnostic) =>
      var when := if hasTick == 1 then Some(tick as int) else None;
      content := ErrorOf(CategoryOf(category), recoverable == 1, when, detail, diagnostic);
    case SystemInfo(a, b, c, d, e, f, diagnostic, gitHash) =>
      content := InfoOf(Version(a, b, c), Version(d, e, f), diagnostic, gitHash);
  }

  lemma SaysSomethingIsValid(ctx: Context, body: Body, content: Content)
    requires Says(ctx, body, content)
    ensures BodyStatus(ctx, body) == Ok
  {
    match content
    case UpdateOf(_, _, items) => ItemsAreAccepted(ctx, Operations, items, body.operations);
    case ResultOf(_, _, _, _, items) => ItemsAreAccepted(ctx, Captures, items, body.captures);
    case _ =>
  }

  /** The validator accepts exactly the bodies with a documented content. */
  lemma ValidExactlyWhenSaysSomething(ctx: Context, body: Body)
    ensures BodyStatus(ctx, body) == Ok <==> exists content :: Says(ctx, body, content)
  {
    if BodyStatus(ctx, body) == Ok {
      var content := ValidSaysSomething(ctx, body);
    }
    forall content | Says(ctx, body, content)
      ensures BodyStatus(ctx, body) == Ok
    {
      SaysSomethingIsValid(ctx, body, content);
    }
  }

  lemma ItemsAreUnique(ctx: Context, kind: Kind, one: seq<Item>, two: seq<Item>, records: seq<Record>)
    requires ItemsAre(ctx, kind, one, records) && ItemsAre(ctx, kind, two, records)
    ensures one == two
  {
    hide Spells;
    forall i | 0 <= i < |records|
      ensures one[i] == two[i]
    {
      var r := records[i];
      assert ItemIs(ctx, kind, one[i], r) && ItemIs(ctx, kind, two[i], r);
      ValueIsUnique(kind, r.peripheral, r.channel as int, one[i].value, two[i].value, r.data);
    }
  }

  /** A body has one content. */
  lemma ContentIsUnique(ctx: Context, body: Body, one: Content, two: Content)
    requires Says(ctx, body, one) && Says(ctx, body, two)
    ensures one == two
  {
    hide ItemsAre;
    match one
    case UpdateOf(_, _, items) => ItemsAreUnique(ctx, Operations, items, two.items, body.operations);
    case ResultOf(_, _, _, _, items) => ItemsAreUnique(ctx, Captures, items, two.items, body.captures);
    case _ =>
  }

  /** The statuses of refused bodies: an Error's tick has one of its own, I2C records another. */
  lemma RefusedBody(ctx: Context, body: Body)
    ensures var status := BodyStatus(ctx, body);
            && (status == InconsistentTick
                <==> body.Error? && 1 <= body.category <= 6 && body.recoverable <= 1 && body.hasTick <= 1
                     && if body.hasTick == 1 then body.tick >= ctx.maxTicks else body.tick != 0)
            && (status == NotImplemented
                <==> (body.Update? && body.tick < ctx.maxTicks && body.flags <= 1
                      && ListVerdict(ctx, Operations, body.operations, {}) == NotImplemented)
                     || (body.Captured? && body.tick < ctx.maxTicks && body.flags <= 1 && 0 <= body.condition <= 2
                         && (body.condition == 0 ==> body.problemDetail == 0)
                         && ListVerdict(ctx, Captures, body.captures, {}) == NotImplemented))
            && status in {Ok, InconsistentTick, NotImplemented, ValidationFailed}
  {
    match body
    case Update(_, _, operations) => ListStatuses(ctx, Operations, operations);
    case Captured(_, _, _, _, captures) => ListStatuses(ctx, Captures, captures);
    case _ =>
  }

  lemma ListStatuses(ctx: Context, kind: Kind, records: seq<Record>)
    ensures ListVerdict(ctx, kind, records, {}) in {Ok, NotImplemented, ValidationFailed}
  {
    if ListVerdict(ctx, kind, records, {}) != Ok {
      var i := RefusedListStops(ctx, kind, records);
    }
  }
}

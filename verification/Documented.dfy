/**
 The codec against its documentation: the bytes that are decoded are exactly the documented tables of messages
 with a documented content in a documented envelope, within the limits of the context and the storage.
 */
module Documented {
  import opened Wire
  import opened Records
  import opened Messages
  import opened Envelopes
  import opened RecordLists
  import opened TypedMessages
  import opened WireTables
  import R = EnvelopeRules

  /** The message says something, in an envelope of its class; an Error with a tick belongs to a test. */
  ghost predicate IsDocumented(ctx: Context, m: Message) {
    && (exists content :: Says(ctx, m.body, content))
    && (m.body.Error? && m.body.hasTick == 1 ==> m.hasTestId == 1)
    && var (_, subtype, presence) := R.Rule(R.ClassOfBody(m.body));
       m.subtype == subtype && R.Allows(presence, m.hasTestId)
  }

  /** The validator accepts exactly the documented messages. */
  lemma ValidExactlyWhenDocumented(ctx: Context, m: Message)
    requires ctx.initialized
    ensures Validity(ctx, m) == Ok <==> IsDocumented(ctx, m)
  {
    R.CommonFieldsExact(m);
    ValidExactlyWhenSaysSomething(ctx, m.body);
    hide BodyStatus;
  }

  lemma AcceptedRecordsAreBytes(ctx: Context, kind: Kind, records: seq<Record>)
    requires ListVerdict(ctx, kind, records, {}) == Ok
    ensures ByteRecords(records)
  {
    AcceptedExactlyWhenDistinct(ctx, kind, records);
    forall i | 0 <= i < |records|
      ensures 0 <= records[i].peripheral < 256
    {
      AcceptableIsInRange(ctx, kind, records[i]);
    }
  }

  lemma ValidIsTabular(ctx: Context, m: Message)
    requires Validity(ctx, m) == Ok
    ensures Tabular(m.body) && 0 <= m.subtype < 256
  {
    if m.body.Update? {
      AcceptedRecordsAreBytes(ctx, Operations, m.body.operations);
    } else if m.body.Captured? {
      AcceptedRecordsAreBytes(ctx, Captures, m.body.captures);
    }
  }

  /** The bytes are the table of the message, which has no Test-ID bytes unless it has a Test-ID. */
  predicate Tabulates(m: Message, bytes: seq<byte>) {
    && Tabular(m.body) && 0 <= m.subtype < 256 && bytes == MessageTable(m)
    && (m.hasTestId == 0 ==> forall i :: 0 <= i < 16 ==> m.testId[i] == 0)
  }

  lemma TableOfWire(ctx: Context, m: Message, bytes: seq<byte>)
    requires Configured(ctx) && Validity(ctx, m) == Ok && |bytes| <= ctx.maxMessage
    ensures bytes == MessageWire(m) && Canonical(m) <==> Tabulates(m, bytes)
  {
    ValidIsTabular(ctx, m);
    PayloadIsTable(m.body);
    if |PayloadTable(m.body)| <= 0xFFFF {
      MessageIsTable(m);
    } else {
      assert |MessageTable(m)| >= |PayloadTable(m.body)|;
    }
    assert m.hasTestId <= 1;
    ZeroId(m.testId);
    hide BodyWire;
    hide PayloadTable;
    hide MessageWire;
    hide MessageTable;
    hide BodyStatus;
  }

  lemma ZeroId(id: TestId)
    ensures id == Zeros(16) <==> forall i :: 0 <= i < 16 ==> id[i] == 0
  {
  }

  /** What the decoder accepts, in the terms of the documentation. */
  lemma AcceptedExactlyWhenDocumented(p: Platform, ctx: Context, bytes: seq<byte>, capacity: nat, m: Message)
    requires p.Valid() && Configured(ctx) && ctx.initialized
    ensures DecodeVerdict(p, ctx, bytes, capacity) == Decoded(m)
            <==> IsDocumented(ctx, m) && Tabulates(m, bytes) && |bytes| <= ctx.maxMessage
                 && BodyStorage(p, m.body) <= capacity && BodyStorage(p, m.body) <= p.sizeMax
  {
    AcceptedExactlyWhenWireForm(p, ctx, bytes, capacity, m);
    ValidExactlyWhenDocumented(ctx, m);
    if IsDocumented(ctx, m) && |bytes| <= ctx.maxMessage {
      TableOfWire(ctx, m, bytes);
    }
    hide DecodeVerdict;
    hide IsDocumented;
    hide Tabulates;
    hide MessageWire;
    hide Validity;
    hide BodyStorage;
  }
}

/**
 What the validation of a record list comes to, told without the duplicate masks: every record acceptable by
 itself and no two of the same peripheral and channel; and for a refused list, which record decides its status.
 */
module RecordLists {
  import opened Records
  import opened RecordScan
  import opened PeripheralValues

  ghost predicate AllAcceptable(ctx: Context, kind: Kind, records: seq<Record>) {
    forall i :: 0 <= i < |records| ==>
      Fields(ctx, kind, records[i].peripheral, records[i].channel, records[i].data) == Ok
  }

  ghost predicate Distinct(records: seq<Record>) {
    forall i, j :: 0 <= i < j < |records| ==>
      records[i].peripheral != records[j].peripheral || records[i].channel != records[j].channel
  }

  ghost predicate NoneSeen(records: seq<Record>, pairs: set<Pair>) {
    forall i :: 0 <= i < |records| ==> PairOf(records[i]) !in pairs
  }

  lemma AcceptableIsInRange(ctx: Context, kind: Kind, r: Record)
    requires Fields(ctx, kind, r.peripheral, r.channel, r.data) == Ok
    ensures PairInRange(r.peripheral, r.channel as int)
  {
  }

  lemma FromFirst(ctx: Context, kind: Kind, records: seq<Record>, pairs: set<Pair>)
    requires records != []
    ensures var first, rest := records[0], records[1..];
            && (AllAcceptable(ctx, kind, records)
                <==> Fields(ctx, kind, first.peripheral, first.channel, first.data) == Ok
                     && AllAcceptable(ctx, kind, rest))
            && (NoneSeen(records, pairs) && Distinct(records)
                <==> PairOf(first) !in pairs && NoneSeen(rest, pairs + {PairOf(first)}) && Distinct(rest))
  {
    hide Fields;
    var rest := records[1..];
    assert forall i :: 0 < i < |records| ==> records[i] == rest[i - 1];
    assert forall i :: 0 <= i < |rest| ==> rest[i] == records[i + 1];
  }

  lemma {:induction false} AcceptedFrom(ctx: Context, kind: Kind, records: seq<Record>, pairs: set<Pair>)
    ensures ListVerdict(ctx, kind, records, pairs) == Ok
            <==> AllAcceptable(ctx, kind, records) && Distinct(records) && NoneSeen(records, pairs)
    decreases |records|
  {
    if records == [] {
    } else {
      var first := records[0];
      FromFirst(ctx, kind, records, pairs);
      AcceptedFrom(ctx, kind, records[1..], pairs + {PairOf(first)});
      if Fields(ctx, kind, first.peripheral, first.channel, first.data) == Ok {
        AcceptableIsInRange(ctx, kind, first);
      }
      hide Fields;
    }
  }

  /** A list is accepted exactly when each record is and no two are for the same channel. */
  lemma AcceptedExactlyWhenDistinct(ctx: Context, kind: Kind, records: seq<Record>)
    ensures ListVerdict(ctx, kind, records, {}) == Ok <==> AllAcceptable(ctx, kind, records) && Distinct(records)
  {
    AcceptedFrom(ctx, kind, records, {});
  }

  /** The status of the record that stops a list: a repeated or unknown channel first, then its own fields. */
  function StoppingStatus(ctx: Context, kind: Kind, r: Record, repeated: bool): Status {
    if repeated || !(0 <= r.peripheral < 20) || r.channel >= 16 then ValidationFailed
    else if r.peripheral == 18 && 1 <= |r.data| <= ctx.maxVariable then NotImplemented
    else ValidationFailed
  }

  /** The record is for the same channel as one before it. */
  ghost predicate Repeats(records: seq<Record>, i: nat)
    requires i < |records|
  {
    exists j :: 0 <= j < i && PairOf(records[j]) == PairOf(records[i])
  }

  lemma RepeatsFromFirst(records: seq<Record>, k: nat)
    requires k + 1 < |records|
    ensures Repeats(records, k + 1)
            <==> PairOf(records[k + 1]) == PairOf(records[0]) || Repeats(records[1..], k)
  {
    var rest := records[1..];
    assert forall j :: 0 <= j <= k ==> rest[j] == records[j + 1];
    if Repeats(records, k + 1) {
      var j :| 0 <= j < k + 1 && PairOf(records[j]) == PairOf(records[k + 1]);
      assert j == 0 || PairOf(rest[j - 1]) == PairOf(rest[k]);
    }
    if Repeats(rest, k) {
      var j :| 0 <= j < k && PairOf(rest[j]) == PairOf(rest[k]);
      assert PairOf(records[j + 1]) == PairOf(records[k + 1]);
    }
  }

  lemma {:induction false} StopsFrom(ctx: Context, kind: Kind, records: seq<Record>, pairs: set<Pair>)
    returns (i: nat)
    requires ListVerdict(ctx, kind, records, pairs) != Ok
    ensures i < |records| && ListVerdict(ctx, kind, records[..i], pairs) == Ok
    ensures ListVerdict(ctx, kind, records, pairs)
         == StoppingStatus(ctx, kind, records[i], PairOf(records[i]) in pairs || Repeats(records, i))
    decreases |records|
  {
    var first := records[0];
    RefusedFields(ctx, kind, first.peripheral, first.channel, first.data);
    hide Fields;
    if !CanMark(pairs, first.peripheral, first.channel as int)
       || Fields(ctx, kind, first.peripheral, first.channel, first.data) != Ok {
      i := 0;
    } else {
      var k := StopsFrom(ctx, kind, records[1..], pairs + {PairOf(first)});
      i := k + 1;
      assert records[..i][0] == first && records[..i][1..] == records[1..][..k];
      RepeatsFromFirst(records, k);
    }
  }

  /** A refused list: the records before some first one form an accepted list, and that one gives the status. */
  lemma RefusedListStops(ctx: Context, kind: Kind, records: seq<Record>) returns (i: nat)
    requires ListVerdict(ctx, kind, records, {}) != Ok
    ensures i < |records| && ListVerdict(ctx, kind, records[..i], {}) == Ok
    ensures ListVerdict(ctx, kind, records, {}) == StoppingStatus(ctx, kind, records[i], Repeats(records, i))
  {
    i := StopsFrom(ctx, kind, records, {});
  }
}

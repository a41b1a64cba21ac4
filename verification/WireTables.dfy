/**
 The documented byte tables of the envelope, the modelled payloads and the records, field by field with their
 numbers written out. The wire form that writer and reader share is proved to be these tables.
 */
module WireTables {
  import opened Sequences
  import opened Wire
  import opened LittleEndian
  import opened Records
  import opened RecordScan
  import opened Messages
  import R = EnvelopeRules

  /** Peripheral, channel, length, data, and zeros up to a multiple of four. */
  function RecordTable(r: Record): seq<byte>
    requires 0 <= r.peripheral < 256
  {
    [r.peripheral] + [r.channel] + Digits(2, |r.data|) + r.data + Zeros((0 - |r.data|) % 4)
  }

  predicate ByteRecords(records: seq<Record>) {
    forall i :: 0 <= i < |records| ==> 0 <= records[i].peripheral < 256
  }

  function RecordTables(records: seq<Record>): (tables: seq<seq<byte>>)
    requires ByteRecords(records)
    ensures |tables| == |records| && forall i :: 0 <= i < |records| ==> tables[i] == RecordTable(records[i])
  {
    seq(|records|, i requires 0 <= i < |records| => RecordTable(records[i]))
  }

  /** Enumerations that fit a byte and spans that fit their length field. */
  predicate Tabular(body: Body) {
    match body
    case Update(_, _, operations) => ByteRecords(operations)
    case Captured(_, condition, _, _, captures) => 0 <= condition < 256 && ByteRecords(captures)
    case Arbitrary(_, _) => true
    case Error(category, _, _, _, _, diagnostic) => 0 <= category < 256 && |diagnostic| < 256
    case SystemInfo(major, minor, _, _, _, _, diagnostic, gitHash) =>
      major < 256 && minor < 256 && |diagnostic| < 256 && |gitHash| < 256
  }

  function PayloadTable(body: Body): seq<byte>
    requires Tabular(body)
  {
    match body
    case Update(tick, flags, operations) =>
      Digits(4, tick) + [|operations|] + [flags] + [0, 0] + Flatten(RecordTables(operations))
    case Captured(tick, condition, flags, detail, captures) =>
      Digits(4, tick) + [|captures|] + [condition] + [flags] + [0] + Digits(4, detail)
      + Flatten(RecordTables(captures))
    case Arbitrary(dataId, payload) => Digits(4, dataId) + Digits(2, |payload|) + payload
    case Error(category, recoverable, hasTick, tick, detail, diagnostic) =>
      [category] + [recoverable] + [hasTick] + Digits(4, tick) + Digits(4, detail) + [|diagnostic|] + diagnostic
    case SystemInfo(major, minor, patch, fwMajor, fwMinor, fwPatch, diagnostic, gitHash) =>
      Digits(2, major) + Digits(2, minor) + Digits(2, patch)
      + Digits(2, fwMajor) + Digits(2, fwMinor) + Digits(2, fwPatch)
      + [|diagnostic|] + diagnostic + [|gitHash|] + gitHash
  }

  function EnvelopeTable(
      major: byte, minor: byte, hasTestId: byte, testId: TestId, messageType: byte, subtype: byte, size: nat):
    seq<byte>
  {
    [major] + [minor] + [hasTestId] + testId + [messageType] + [subtype] + Digits(2, size)
  }

  function IdTable(hasTestId: byte, testId: TestId): TestId {
    if hasTestId == 1 then testId else [0, 0, 0, 0, 0, 0, 0, 0, 0, 0, 0, 0, 0, 0, 0, 0]
  }

  /** Protocol 0.4, except that a discovery response carries the version it reports. */
  function MessageTable(m: Message): seq<byte>
    requires Tabular(m.body) && 0 <= m.subtype < 256
  {
    var (major, minor) := if m.body.SystemInfo? then (m.body.protocolMajor, m.body.protocolMinor) else (0, 4);
    var number, payload := R.Rule(R.ClassOfBody(m.body)).0, PayloadTable(m.body);
    EnvelopeTable(major, minor, m.hasTestId, IdTable(m.hasTestId, m.testId), number, m.subtype, |payload|) + payload
  }

  lemma PadIsTable(size: nat)
    ensures Pad4(size) == (0 - size) % 4
  {
  }

  lemma RecordIsTable(r: Record)
    requires 0 <= r.peripheral < 256
    ensures RecordWire(r) == RecordTable(r)
  {
    FieldsAreDigits(|r.data|, 0);
    PadIsTable(|r.data|);
    hide Pad4;
    hide Digits;
    hide U16Le;
    hide Zeros;
  }

  lemma {:induction false} RecordsAreTables(records: seq<Record>)
    requires ByteRecords(records)
    ensures RecordsWire(records) == Flatten(RecordTables(records))
    decreases |records|
  {
    if records == [] {
    } else {
      hide RecordWire;
      hide RecordTable;
      var last := |records| - 1;
      var init, r := records[..last], records[last];
      RecordsAreTables(init);
      RecordIsTable(r);
      RecordsWireSnoc(init, r);
      assert records == init + [r];
      assert RecordTables(records) == RecordTables(init) + [RecordTable(r)];
      FlattenSnoc(RecordTables(init), RecordTable(r));
    }
  }

  lemma RecordHeadersAreTables(tick: u32, count: byte, condition: byte, flags: byte, detail: u32)
    ensures UpdateHeader(tick, count, flags) == Digits(4, tick) + [count] + [flags] + [0, 0]
    ensures CapturedHeader(tick, count, condition, flags, detail)
         == Digits(4, tick) + [count] + [condition] + [flags] + [0] + Digits(4, detail)
  {
    FieldsAreDigits(0, tick);
    FieldsAreDigits(0, detail);
    hide Digits;
    hide U32Le;
  }

  lemma ErrorHeaderIsTable(category: byte, recoverable: byte, hasTick: byte, tick: u32, detail: u32)
    ensures ErrorHeader(category, recoverable, hasTick, tick, detail)
         == [category] + [recoverable] + [hasTick] + Digits(4, tick) + Digits(4, detail)
  {
    FieldsAreDigits(0, tick);
    FieldsAreDigits(0, detail);
    hide Digits;
    hide U32Le;
  }

  lemma InfoHeaderIsTable(major: u16, minor: u16, patch: u16, fwMajor: u16, fwMinor: u16, fwPatch: u16)
    ensures InfoHeader(major, minor, patch, fwMajor, fwMinor, fwPatch)
         == Digits(2, major) + Digits(2, minor) + Digits(2, patch)
            + Digits(2, fwMajor) + Digits(2, fwMinor) + Digits(2, fwPatch)
  {
    FieldsAreDigits(major, 0);
    FieldsAreDigits(minor, 0);
    FieldsAreDigits(patch, 0);
    FieldsAreDigits(fwMajor, 0);
    FieldsAreDigits(fwMinor, 0);
    FieldsAreDigits(fwPatch, 0);
    hide Digits;
    hide U16Le;
  }

  lemma PayloadIsTable(body: Body)
    requires Tabular(body)
    ensures BodyWire(body) == PayloadTable(body)
  {
    hide UpdateHeader;
    hide CapturedHeader;
    hide ErrorHeader;
    hide InfoHeader;
    hide RecordsWire;
    hide RecordTables;
    match body
    case Update(tick, flags, operations) =>
      RecordsAreTables(operations);
      RecordHeadersAreTables(tick, |operations|, 0, flags, 0);
    case Captured(tick, condition, flags, detail, captures) =>
      RecordsAreTables(captures);
      RecordHeadersAreTables(tick, |captures|, condition, flags, detail);
    case Arbitrary(dataId, payload) => FieldsAreDigits(|payload|, dataId);
    case Error(category, recoverable, hasTick, tick, detail, diagnostic) =>
      ErrorHeaderIsTable(category, recoverable, hasTick, tick, detail);
      Associate(ErrorHeader(category, recoverable, hasTick, tick, detail), [|diagnostic|], diagnostic);
    case SystemInfo(major, minor, patch, fwMajor, fwMinor, fwPatch, diagnostic, gitHash) =>
      var header := InfoHeader(major, minor, patch, fwMajor, fwMinor, fwPatch);
      InfoHeaderIsTable(major, minor, patch, fwMajor, fwMinor, fwPatch);
      Associate(header, [|diagnostic|], diagnostic);
      Associate(header + SpanWire(diagnostic), [|gitHash|], gitHash);
  }

  lemma EnvelopeIsTable(
      major: byte, minor: byte, hasTestId: byte, testId: TestId, messageType: byte, subtype: byte, size: u16)
    ensures HeaderWire(major, minor, hasTestId, testId, messageType, subtype, size)
         == EnvelopeTable(major, minor, hasTestId, testId, messageType, subtype, size)
  {
    FieldsAreDigits(size, 0);
    hide Digits;
    hide U16Le;
  }

  lemma IdIsTable(hasTestId: byte, testId: TestId)
    ensures IdWire(hasTestId, testId) == IdTable(hasTestId, testId)
  {
  }

  /** The wire form of a message is its documented table, for every message whose fields fit theirs. */
  lemma MessageIsTable(m: Message)
    requires Tabular(m.body) && 0 <= m.subtype < 256 && |PayloadTable(m.body)| <= 0xFFFF
    ensures MessageWire(m) == MessageTable(m)
  {
    PayloadIsTable(m.body);
    IdIsTable(m.hasTestId, m.testId);
    EnvelopeIsTable(EnvelopeMajor(m.body), EnvelopeMinor(m.body), m.hasTestId, IdWire(m.hasTestId, m.testId),
                    TypeOf(m.body), m.subtype, |BodyWire(m.body)|);
    hide BodyWire;
    hide PayloadTable;
    hide HeaderWire;
    hide EnvelopeTable;
    hide IdWire;
    hide IdTable;
    hide Zeros;
  }
}

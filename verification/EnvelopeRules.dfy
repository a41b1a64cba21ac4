/**
 Which envelopes belong to which message, told from the writer's side: the type number, the subtype and the
 Test-ID presence that the Python binding writes for each of its sixteen message classes. The codec, which
 works from sets of type numbers, is proved to accept exactly these.
 */
module EnvelopeRules {
  import opened Wire
  import opened Records
  import opened Messages

  datatype MessageClass =
    | SystemInfoRequest | SystemInfoResponse | GlobalControl | ExecutionControl | FinalizeTestUpload
    | TestConfiguration | TestInstruction | TestResult | UpdateInstruction | VariableTestResult
    | ApplicationResponse | ApplicationError | RunReport | RigStatus | ArbitraryControl | ArbitraryData

  datatype Presence = Never | Always | WhenGiven

  /** Type number, subtype and Test-ID presence of a class. */
  function Rule(c: MessageClass): (int, int, Presence) {
    match c
    case SystemInfoRequest => (1, 1, Never)
    case SystemInfoResponse => (2, 1, Never)
    case GlobalControl => (20, 0, Never)
    case ExecutionControl => (19, 0, Always)
    case FinalizeTestUpload => (22, 0, Always)
    case TestConfiguration => (16, 0, Always)
    case TestInstruction => (17, 0, Always)
    case TestResult => (32, 0, Always)
    case UpdateInstruction => (21, 0, Always)
    case VariableTestResult => (34, 0, Always)
    case ApplicationResponse => (48, 0, WhenGiven)
    case ApplicationError => (49, 0, WhenGiven)
    case RunReport => (35, 0, Always)
    case RigStatus => (50, 0, WhenGiven)
    case ArbitraryControl => (64, 0, WhenGiven)
    case ArbitraryData => (65, 0, WhenGiven)
  }

  /** The presence byte: `given` says whether the value holds a Test-ID. */
  function PresenceByte(presence: Presence, given: bool): byte {
    if presence == Always || (presence == WhenGiven && given) then 1 else 0
  }

  predicate IsBuilt(c: MessageClass, given: bool, messageType: int, subtype: int, hasTestId: byte) {
    var (number, form, presence) := Rule(c);
    messageType == number && subtype == form && hasTestId == PresenceByte(presence, given)
  }

  /** The class of a type number; the numbers are all different. */
  function ClassOf(messageType: int): (c: Option<MessageClass>)
    ensures forall k :: Rule(k).0 == messageType <==> c == Some(k)
  {
    if messageType == 1 then Some(SystemInfoRequest)
    else if messageType == 2 then Some(SystemInfoResponse)
    else if messageType == 16 then Some(TestConfiguration)
    else if messageType == 17 then Some(TestInstruction)
    else if messageType == 19 then Some(ExecutionControl)
    else if messageType == 20 then Some(GlobalControl)
    else if messageType == 21 then Some(UpdateInstruction)
    else if messageType == 22 then Some(FinalizeTestUpload)
    else if messageType == 32 then Some(TestResult)
    else if messageType == 34 then Some(VariableTestResult)
    else if messageType == 35 then Some(RunReport)
    else if messageType == 48 then Some(ApplicationResponse)
    else if messageType == 49 then Some(ApplicationError)
    else if messageType == 50 then Some(RigStatus)
    else if messageType == 64 then Some(ArbitraryControl)
    else if messageType == 65 then Some(ArbitraryData)
    else None
  }

  /** The presence bytes a class allows. */
  predicate Allows(presence: Presence, hasTestId: byte) {
    match presence
    case Never => hasTestId == 0
    case Always => hasTestId == 1
    case WhenGiven => hasTestId <= 1
  }

  /** What the codec makes of any three envelope bytes: the unknown type first, then the subtype, then the Test-ID. */
  lemma EnvelopeFieldsExact(messageType: int, subtype: int, hasTestId: byte)
    ensures EnvelopeFields(messageType, subtype, hasTestId)
            == match ClassOf(messageType)
               case None => InvalidMessageType
               case Some(c) =>
                 if subtype != Rule(c).1 then InvalidSubtype
                 else if !Allows(Rule(c).2, hasTestId) then InconsistentTestId
                 else Ok
  {
  }

  /** The codec accepts exactly the envelopes that some value of some class has. */
  lemma AcceptedExactlyWhenBuilt(messageType: int, subtype: int, hasTestId: byte)
    ensures EnvelopeFields(messageType, subtype, hasTestId) == Ok
            <==> exists c, given :: IsBuilt(c, given, messageType, subtype, hasTestId)
  {
    EnvelopeFieldsExact(messageType, subtype, hasTestId);
    var found := ClassOf(messageType);
    if found.Some? && subtype == Rule(found.value).1 && Allows(Rule(found.value).2, hasTestId) {
      assert IsBuilt(found.value, hasTestId == 1, messageType, subtype, hasTestId);
    }
  }

  /** A modelled body's class. */
  function ClassOfBody(body: Body): MessageClass {
    match body
    case Update(_, _, _) => UpdateInstruction
    case Captured(_, _, _, _, _) => VariableTestResult
    case Arbitrary(_, _) => ArbitraryData
    case Error(_, _, _, _, _, _) => ApplicationError
    case SystemInfo(_, _, _, _, _, _, _, _) => SystemInfoResponse
  }

  /**
   The envelope checks on a typed message: the class's own subtype, then its presence, and then the one rule
   that looks at the body, that an Error with a tick has a Test-ID.
   */
  lemma CommonFieldsExact(m: Message)
    ensures var rule := Rule(ClassOfBody(m.body));
            CommonFields(m)
            == if m.subtype != rule.1 then InvalidSubtype
               else if !Allows(rule.2, m.hasTestId) then InconsistentTestId
               else if m.body.Error? && m.body.hasTick == 1 && m.hasTestId == 0 then InconsistentTestId
               else Ok
  {
    EnvelopeFieldsExact(TypeOf(m.body), m.subtype, m.hasTestId);
    assert ClassOf(TypeOf(m.body)) == Some(ClassOfBody(m.body));
  }
}

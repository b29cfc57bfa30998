/** The HTTP handlers of internal/presentation/api/handlers.go as decision
    functions: the phone-number pattern, the `/auto` action dispatch, the
    validation order of `POST /messages`, and the status of `GET /sent`.
    A request arrives already decoded (None: the body was not valid JSON);
    a response is a status and the body it would encode. */
module Handlers {
  import opened Wrappers
  import opened Bytes
  import opened Config
  import opened Entity
  import opened MessageStore
  import opened Scheduling

  // ---------------------------------------------------------------------
  // The phone pattern `^\+[1-9]\d{1,14}$`.

  const Plus: byte := 0x2B

  predicate IsNonZeroDigit(b: byte) {
    0x31 <= b <= 0x39
  }

  /** The strings the pattern matches: a plus sign, a digit 1 to 9, then 1
      to 14 more ASCII digits; 3 to 16 bytes in all. */
  predicate IsPhone(s: Bytes) {
    && 3 <= |s| <= 16
    && s[0] == Plus && IsNonZeroDigit(s[1])
    && forall i | 2 <= i < |s| :: IsDigit(s[i])
  }

  /** The states of a matcher for the pattern; `Digits(n)` has read the
      plus sign, the leading digit and `n` more digits. */
  datatype PhoneState = Begin | AfterPlus | Digits(n: nat) | Dead

  function Step(q: PhoneState, c: byte): PhoneState {
    match q
    case Begin => if c == Plus then AfterPlus else Dead
    case AfterPlus => if IsNonZeroDigit(c) then Digits(0) else Dead
    case Digits(n) => if IsDigit(c) && n < 14 then Digits(n + 1) else Dead
    case Dead => Dead
  }

  predicate Accepting(q: PhoneState) {
    q.Digits? && q.n >= 1
  }

  /** The state the matcher is in after reading `p`, described directly. */
  function StateOf(p: Bytes): PhoneState {
    if p == [] then Begin
    else if p[0] != Plus then Dead
    else if |p| == 1 then AfterPlus
    else if IsNonZeroDigit(p[1]) && |p| <= 16 && (forall i | 2 <= i < |p| :: IsDigit(p[i])) then Digits(|p| - 2)
    else Dead
  }

  lemma StepStateOf(s: Bytes, i: nat)
    requires i < |s|
    ensures StateOf(s[..i + 1]) == Step(StateOf(s[..i]), s[i])
  {
  }

  lemma AcceptingStateOf(s: Bytes)
    ensures Accepting(StateOf(s)) <==> IsPhone(s)
  {
  }

  /** `phoneRegex.MatchString`: one left-to-right pass of the matcher. */
  method MatchPhone(s: Bytes) returns (ok: bool)
    ensures ok <==> IsPhone(s)
  {
    var q := Begin;
    var i := 0;
    while i < |s|
      invariant 0 <= i <= |s|
      invariant q == StateOf(s[..i])
    {
      StepStateOf(s, i);
      q := Step(q, s[i]);
      i := i + 1;
    }
    assert s[..|s|] == s;
    AcceptingStateOf(s);
    ok := Accepting(q);
  }

  /** A phone number holds no white space, so trimming keeps it whole. */
  lemma PhoneIsTrimmed(s: Bytes)
    requires IsPhone(s)
    ensures TrimSpace(s) == s && !AllSpace(s)
  {
  }

  // ---------------------------------------------------------------------
  // Responses.

  datatype ErrorCode = InvalidAction | InvalidPayload | InvalidPhoneNumber | EmptyContent | ValidationError

  /** The body a handler writes: a status object, an error object with its
      code, the plain-text body of an internal error, a message, or a list
      of messages. */
  datatype Body =
    | StatusBody(text: Bytes)
    | ErrorBody(code: ErrorCode)
    | InternalError
    | MessageBody(message: Message)
    | ListBody(messages: seq<Message>)

  datatype Response = Response(status: int, body: Body)

  // ---------------------------------------------------------------------
  // GET|POST /auto?action=...

  const StartAction: Bytes := Ascii("start")
  const StopAction: Bytes := Ascii("stop")
  const Started: Bytes := Ascii("started")
  const Stopped: Bytes := Ascii("stopped")

  datatype ControlCall = CallStart | CallStop

  /** `StartStop`: "start" calls only `Start` and "stop" only `Stop`,
      both answering 200; any other value, the empty one of a missing
      parameter included, answers 400 `INVALID_ACTION` and calls
      nothing. */
  function StartStop(action: Bytes): (r: (Response, Option<ControlCall>))
    ensures r.1 == Some(CallStart) <==> action == StartAction
    ensures r.1 == Some(CallStop) <==> action == StopAction
    ensures r.0.status == 200 <==> r.1.Some?
    ensures r.1 == Some(CallStart) ==> r.0.body == StatusBody(Started)
    ensures r.1 == Some(CallStop) ==> r.0.body == StatusBody(Stopped)
    ensures r.1 == None ==> r.0 == Response(400, ErrorBody(InvalidAction))
  {
    assert StartAction != StopAction by {
      assert |StartAction| == 5 && |StopAction| == 4;
    }
    if action == StartAction then (Response(200, StatusBody(Started)), Some(CallStart))
    else if action == StopAction then (Response(200, StatusBody(Stopped)), Some(CallStop))
    else (Response(400, ErrorBody(InvalidAction)), None)
  }

  /** The scheduler after a control call. */
  function Control(s: SchedState, cfg: Config, call: Option<ControlCall>): SchedState {
    match call
    case None => s
    case Some(CallStart) => OnStart(s, cfg)
    case Some(CallStop) => OnStop(s)
  }

  /** After `/auto`, the scheduler runs exactly when the action was
      "start", or when the action was invalid and it was already running;
      the invariant holds throughout. */
  lemma StartStopControls(s: SchedState, cfg: Config, action: Bytes)
    requires Inv(s)
    ensures var (resp, call) := StartStop(action);
      var s' := Control(s, cfg, call);
      && Inv(s')
      && (resp.status == 200 ==> (s'.running <==> action == StartAction))
      && (resp.status != 200 ==> s' == s)
  {
  }

  // ---------------------------------------------------------------------
  // POST /messages

  /** The decoded JSON body `{"to": ..., "content": ...}`; a missing field
      decodes as empty. */
  datatype CreateRequest = CreateRequest(to: Bytes, content: Bytes)

  /** `CreateMessage`: the checks run in a fixed order (the body decodes,
      the destination is a phone number, the content is not empty,
      `NewMessage` accepts it) and the first failure decides the 400 code;
      only then is the message stored, a store failure answering 500 and
      success 201 with the message as built, whose identifier is still 0
      because `Create` does not write it back. */
  function CreateMessage(req: Option<CreateRequest>, limit: int, st: Store, createFails: bool, now: int): (r: (Response, Store))
    requires limit >= 0
    ensures r.0.status == 400 || r.0.status == 500 || r.0.status == 201
    ensures r.0.status != 201 ==> r.1 == st
    ensures r.0.body == ErrorBody(InvalidPayload) <==> req.None?
    ensures r.0.body == ErrorBody(InvalidPhoneNumber) <==> req.Some? && !IsPhone(req.value.to)
    ensures r.0.body == ErrorBody(EmptyContent) <==> req.Some? && IsPhone(req.value.to) && req.value.content == []
    ensures r.0.body == ErrorBody(ValidationError) <==>
              req.Some? && IsPhone(req.value.to) && req.value.content != [] && AllSpace(req.value.content)
    ensures r.0.status == 400 <==> r.0.body.ErrorBody?
    ensures r.0.status == 500 <==> r.0.body == InternalError
    ensures r.0.status == 500 ==> createFails
    ensures req.Some? && IsPhone(req.value.to) && !AllSpace(req.value.content) ==>
              && (r.0.status == 201 <==> !createFails)
              && (r.0.status == 500 <==> createFails)
    ensures r.0.body != ErrorBody(InvalidAction)
    ensures r.0.status == 201 ==>
              && !createFails && req.Some? && r.0.body.MessageBody?
              && var m := r.0.body.message;
              && m.id == 0 && !m.sent
              && m.to == req.value.to
              && m.content == Truncate(TrimSpace(req.value.content), limit)
              && r.1 == Create(st, m, now)
  {
    match req
    case None => (Response(400, ErrorBody(InvalidPayload)), st)
    case Some(cr) =>
      if !IsPhone(cr.to) then (Response(400, ErrorBody(InvalidPhoneNumber)), st)
      else if cr.content == [] then (Response(400, ErrorBody(EmptyContent)), st)
      else
        assert TrimSpace(cr.to) == cr.to && !AllSpace(cr.to) by { PhoneIsTrimmed(cr.to); }
        match NewMessage(cr.to, cr.content, limit)
        case Failure(_) => (Response(400, ErrorBody(ValidationError)), st)
        case Success(msg) =>
          if createFails then (Response(500, InternalError), st)
          else (Response(201, MessageBody(msg)), Create(st, msg, now))
  }

  /** A request with a phone-number destination and content that is not
      all white space is answered 201 when the store accepts it. The
      stored row is exactly one new unsent row for that destination, and
      the table stays valid when `now` is later than every row. */
  lemma CreateMessageStores(req: Option<CreateRequest>, limit: int, st: Store, now: int)
    requires limit >= 0 && Valid(st)
    requires forall k | 0 <= k < |st.rows| :: st.rows[k].createdAt < now
    requires req.Some? && IsPhone(req.value.to) && !AllSpace(req.value.content)
    ensures CreateMessage(req, limit, st, false, now).0.status == 201
    ensures var st' := CreateMessage(req, limit, st, false, now).1;
      && Valid(st') && |st'.rows| == |st.rows| + 1
      && !st'.rows[|st.rows|].sent && st'.rows[|st.rows|].to == req.value.to
      && st'.rows[|st.rows|] in Unsent(st'.rows)
  {
  }

  // ---------------------------------------------------------------------
  // GET /sent

  /** `ListSent`: a store failure answers 500; otherwise 200 with every
      sent row, latest sent first. */
  function ListSentEndpoint(st: Store, listFails: bool): (r: Response)
    ensures listFails <==> r == Response(500, InternalError)
    ensures !listFails ==> r.status == 200 && r.body.ListBody?
    ensures !listFails ==> SentDescending(r.body.messages)
    ensures !listFails ==> forall m :: m in r.body.messages <==> m in st.rows && m.sent
  {
    if listFails then Response(500, InternalError) else Response(200, ListBody(ListSent(st)))
  }
}

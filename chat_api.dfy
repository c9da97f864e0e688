/** The chat endpoints `/api/message` and `/api/chat` (`handleChatRequest` in index.ts): the
    request body's field aliases, the session id fallback, and the status of the reply. The
    clock, the random part of a generated session id, whether the agent has started and what
    the agent answers are parameters. */
module ChatApi {
  import opened Wrappers
  import opened Strings
  import opened Json
  import Decimal

  /** `req.body.key`: a property of the parsed body, `undefined` when the body is not an
      object. */
  function Field(body: Json, key: string): Option<Json> {
    if body.Object? then Lookup(body.members, key) else None
  }

  /** The value is defined and truthy. */
  predicate IsTruthy(v: Option<Json>) { v.Some? && Truthy(v.value) }

  /** `a || b || … || last`: the first truthy operand, or the last one when no other is. */
  function FirstTruthy(operands: seq<Option<Json>>, last: Option<Json>): (r: Option<Json>)
    ensures IsTruthy(r) <==> (exists i :: 0 <= i < |operands| && IsTruthy(operands[i])) || IsTruthy(last)
    ensures r == last || r in operands
  {
    if operands == [] then last
    else if IsTruthy(operands[0]) then operands[0]
    else
      var r := FirstTruthy(operands[1..], last);
      assert forall i :: 1 <= i < |operands| ==> operands[i] == operands[1..][i - 1];
      r
  }

  /** The first truthy operand is the value of the chain. */
  lemma {:induction false} FirstTruthyIsFirst(operands: seq<Option<Json>>, last: Option<Json>, i: nat)
    requires i < |operands| && IsTruthy(operands[i])
    requires forall j :: 0 <= j < i ==> !IsTruthy(operands[j])
    ensures FirstTruthy(operands, last) == operands[i]
  {
    if i > 0 {
      FirstTruthyIsFirst(operands[1..], last, i - 1);
    }
  }

  /** With no truthy operand before it, the last operand is the value, truthy or not. */
  lemma {:induction false} FirstTruthyNone(operands: seq<Option<Json>>, last: Option<Json>)
    requires forall j :: 0 <= j < |operands| ==> !IsTruthy(operands[j])
    ensures FirstTruthy(operands, last) == last
  {
    if operands != [] {
      FirstTruthyNone(operands[1..], last);
    }
  }

  // The fields

  /** The names the message may come under, in the order they are tried. */
  const MessageNames: seq<string> := ["message", "text", "content", "query"]

  /** `message || req.body.text || req.body.content || req.body.query`. */
  function MessageOf(body: Json): Option<Json> {
    FirstTruthy([Field(body, "message"), Field(body, "text"), Field(body, "content")], Field(body, "query"))
  }

  const DefaultSession := "default-session"

  /** The names the session id may come under, in the order they are tried. */
  const SessionNames: seq<string> := ["sessionId", "session_id", "userId", "user_id", "id"]

  /** `sessionId || session_id || userId || user_id || id || 'default-session'`. */
  function SessionIdOf(body: Json): (r: Json)
    ensures Truthy(r)
  {
    var fields := seq(|SessionNames|, i requires 0 <= i < |SessionNames| => Field(body, SessionNames[i]));
    var r := FirstTruthy(fields, Some(String(DefaultSession)));
    r.value
  }

  /** `session-${Date.now()}-${random}`. */
  function GeneratedSessionId(now: nat, randomPart: string): string {
    "session-" + Decimal.NatToString(now) + "-" + randomPart
  }

  /** The session id the agent is given: the one the body names, unless it names none or
      names `default-session`, in which case a fresh one is generated. */
  function EffectiveSessionId(body: Json, now: nat, randomPart: string): Json {
    var id := SessionIdOf(body);
    if !Truthy(id) || id == String(DefaultSession) then String(GeneratedSessionId(now, randomPart)) else id
  }

  // The handler

  /** An HTTP status and the JSON body sent with it. */
  datatype Reply = Reply(status: int, body: Json)

  const MessageRequired := "message field is required (also accepts: text, content, query)"
  const AgentInitializing :=
      "Service Unavailable: Agent is initializing. Please " +
      "try again in a moment."
  const ProcessFailed := "Failed to process message"

  function ErrorBody(text: string): Json { Object([("error", String(text))]) }

  /** `handleChatRequest`. `agentReady` says whether the agent has started; `handle` is
      `agent.handleMessage`, succeeding with its answer or failing with what it threw;
      `processingTime` and `timestamp` are what the clock gives around the call. */
  function HandleChatRequest(body: Json, agentReady: bool, now: nat, randomPart: string,
                             handle: (Json, Json) -> Result<string, string>,
                             processingTime: int, timestamp: string): Reply
  {
    var message := MessageOf(body);
    if !IsTruthy(message) then
      Reply(400, Object([("error", String(MessageRequired)), ("received", body)]))
    else
      var sessionId := EffectiveSessionId(body, now, randomPart);
      if !agentReady then Reply(503, ErrorBody(AgentInitializing))
      else match handle(message.value, sessionId)
        case Success(response) =>
          Reply(200, Object([("response", String(response)),
                             ("metadata", Object([("processingTime", Number(processingTime)),
                                                  ("sessionId", sessionId),
                                                  ("timestamp", String(timestamp))]))]))
        case Failure(_) => Reply(500, ErrorBody(ProcessFailed))
  }

  // Properties

  /** Some alias of the message is truthy. */
  predicate HasMessage(body: Json) {
    exists i :: 0 <= i < |MessageNames| && IsTruthy(Field(body, MessageNames[i]))
  }

  lemma MessageOfTruthy(body: Json)
    ensures IsTruthy(MessageOf(body)) <==> HasMessage(body)
  {
    var ops := [Field(body, "message"), Field(body, "text"), Field(body, "content")];
    if IsTruthy(MessageOf(body)) {
      if IsTruthy(Field(body, "query")) {
        assert IsTruthy(Field(body, MessageNames[3]));
      } else {
        var i :| 0 <= i < |ops| && IsTruthy(ops[i]);
        assert IsTruthy(Field(body, MessageNames[i]));
      }
    } else {
      forall i | 0 <= i < |MessageNames|
        ensures !IsTruthy(Field(body, MessageNames[i]))
      {
        if i < 3 {
          assert ops[i] == Field(body, MessageNames[i]);
        }
      }
    }
  }

  /** The message handed to the agent is the value of the first truthy alias, in the order
      message, text, content, query. */
  lemma {:induction false} MessageAliasOrder(body: Json, i: nat)
    requires i < |MessageNames| && IsTruthy(Field(body, MessageNames[i]))
    requires forall j :: 0 <= j < i ==> !IsTruthy(Field(body, MessageNames[j]))
    ensures MessageOf(body) == Field(body, MessageNames[i])
  {
    var ops := [Field(body, "message"), Field(body, "text"), Field(body, "content")];
    assert forall j :: 0 <= j < 3 ==> ops[j] == Field(body, MessageNames[j]);
    if i < 3 {
      FirstTruthyIsFirst(ops, Field(body, "query"), i);
    } else {
      FirstTruthyNone(ops, Field(body, "query"));
    }
  }

  /** The status of the reply: 400 exactly when no alias of the message is truthy, whether
      or not the agent has started; then 503 exactly when it has not; then 200 or 500 as the
      agent answers or throws. A 400 reply echoes the body it received. */
  lemma RequestStatus(body: Json, agentReady: bool, now: nat, randomPart: string,
                      handle: (Json, Json) -> Result<string, string>, processingTime: int, timestamp: string)
    ensures var r := HandleChatRequest(body, agentReady, now, randomPart, handle, processingTime, timestamp);
      (r.status == 400 <==> !HasMessage(body)) &&
      (r.status == 400 ==> r.body == Object([("error", String(MessageRequired)), ("received", body)])) &&
      (r.status == 503 <==> HasMessage(body) && !agentReady) &&
      (r.status == 200 <==> HasMessage(body) && agentReady &&
                            handle(MessageOf(body).value, EffectiveSessionId(body, now, randomPart)).Success?) &&
      (r.status == 400 || r.status == 503 || r.status == 200 || r.status == 500)
  {
    MessageOfTruthy(body);
  }

  /** A successful reply carries the agent's answer and the session id it was given. */
  lemma SuccessReply(body: Json, now: nat, randomPart: string,
                     handle: (Json, Json) -> Result<string, string>, processingTime: int, timestamp: string)
    requires IsTruthy(MessageOf(body))
    requires handle(MessageOf(body).value, EffectiveSessionId(body, now, randomPart)).Success?
    ensures var r := HandleChatRequest(body, true, now, randomPart, handle, processingTime, timestamp);
      var answer := handle(MessageOf(body).value, EffectiveSessionId(body, now, randomPart)).value;
      r.status == 200 && r.body.Object? && |r.body.members| == 2 &&
      r.body.members[0] == ("response", String(answer)) &&
      r.body.members[1].1.Object? && |r.body.members[1].1.members| == 3 &&
      r.body.members[1].1.members[1] == ("sessionId", EffectiveSessionId(body, now, randomPart))
  {
  }

  /** The agent is never given the placeholder `default-session`: a body naming no session,
      or naming that one, gets a generated `session-…` id, and any other truthy id in the
      first alias that has one is kept. */
  lemma {:induction false} SessionIdFallback(body: Json, now: nat, randomPart: string, i: nat)
    requires i <= |SessionNames|
    requires forall j :: 0 <= j < i ==> !IsTruthy(Field(body, SessionNames[j]))
    requires i < |SessionNames| ==> IsTruthy(Field(body, SessionNames[i]))
    ensures var id := EffectiveSessionId(body, now, randomPart);
      id != String(DefaultSession) && Truthy(id) &&
      (i < |SessionNames| && Field(body, SessionNames[i]).value != String(DefaultSession) ==>
        id == Field(body, SessionNames[i]).value) &&
      ((i == |SessionNames| || Field(body, SessionNames[i]).value == String(DefaultSession)) ==>
        id.String? && StartsWith(id.s, "session-"))
  {
    var fields := seq(|SessionNames|, k requires 0 <= k < |SessionNames| => Field(body, SessionNames[k]));
    if i < |SessionNames| {
      FirstTruthyIsFirst(fields, Some(String(DefaultSession)), i);
    } else {
      FirstTruthyNone(fields, Some(String(DefaultSession)));
    }
    var generated := GeneratedSessionId(now, randomPart);
    assert generated[..8] == "session-";
    assert generated != DefaultSession by {
      assert generated[0] == 's' && DefaultSession[0] == 'd';
    }
  }
}

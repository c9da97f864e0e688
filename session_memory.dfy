/** The agent's chat memory (`chatMemoryStore` in index.ts): one record per session with
    its messages and the time of its last activity, the hourly sweep that forgets sessions
    idle for more than a day, and what handling one message adds to a session and hands to
    the language model. The clock, the memory file a session may be reloaded from and the
    model's answer are parameters. */
module SessionMemory {
  import opened Wrappers
  import opened Strings

  datatype Role = User | Assistant

  /** One remembered message, stamped with the time it was added (milliseconds). */
  datatype Entry = Entry(role: Role, content: string, timestamp: int)

  /** `ChatMemory`. */
  datatype ChatMemory = ChatMemory(messages: seq<Entry>, lastActivity: int, sessionId: string)

  // The sweep

  /** `24 * 60 * 60 * 1000`: a day in milliseconds. */
  const MaxAge: int := 24 * 60 * 60 * 1000

  /** A sweep at `now` forgets a session idle for strictly more than a day. */
  predicate Expired(memory: ChatMemory, now: int) { now - memory.lastActivity > MaxAge }

  /** The sessions a sweep at `now` keeps, unchanged. */
  function Swept(store: map<string, ChatMemory>, now: int): map<string, ChatMemory>
  {
    map k | k in store && !Expired(store[k], now) :: store[k]
  }

  /** A sweep removes exactly the expired sessions and leaves every other one as it was. */
  lemma SweptKeepsExactly(store: map<string, ChatMemory>, now: int, k: string)
    ensures k in Swept(store, now) <==> k in store && now - store[k].lastActivity <= MaxAge
    ensures k in Swept(store, now) ==> Swept(store, now)[k] == store[k]
  {
  }

  /** Sweeping twice at the same time removes nothing more. */
  lemma SweepIdempotent(store: map<string, ChatMemory>, now: int)
    ensures Swept(Swept(store, now), now) == Swept(store, now)
  {
  }

  /** A later sweep keeps no session an earlier one would have removed. */
  lemma LaterSweepKeepsLess(store: map<string, ChatMemory>, earlier: int, later: int)
    requires earlier <= later
    ensures Swept(store, later).Keys <= Swept(store, earlier).Keys
  {
  }

  /** A session active at the time of the sweep survives it. */
  lemma ActiveSessionSurvives(store: map<string, ChatMemory>, now: int, k: string)
    requires k in store && store[k].lastActivity == now
    ensures k in Swept(store, now)
  {
  }

  // One message

  /** The record a message for `sessionId` works on: the one in the store, else the one
      `loadChatMemory` read from the session's file (`stored`), else a new empty one. */
  function SessionFor(store: map<string, ChatMemory>, sessionId: string, stored: Option<ChatMemory>, now: int): ChatMemory
  {
    if sessionId in store then store[sessionId]
    else stored.GetOr(ChatMemory([], now, sessionId))
  }

  /** `messages.push(...)` and `lastActivity = now`. */
  function Remember(memory: ChatMemory, role: Role, content: string, now: int): (r: ChatMemory)
    ensures r.messages == memory.messages + [Entry(role, content, now)]
    ensures r.lastActivity == now && r.sessionId == memory.sessionId
  {
    memory.(messages := memory.messages + [Entry(role, content, now)], lastActivity := now)
  }

  /** The session after a message: the user's entry, then the model's answer when there is
      one. `reply` is the answer, or the message of the error the model call threw. */
  function AfterMessage(memory: ChatMemory, message: string, receivedAt: int, reply: Result<string, string>, repliedAt: int): ChatMemory
  {
    var asked := Remember(memory, User, message, receivedAt);
    match reply
    case Success(content) => Remember(asked, Assistant, content, repliedAt)
    case Failure(_) => asked
  }

  /** A message adds the user's entry and then exactly one entry for the answer, or only the
      user's entry when the model failed; earlier entries are kept, and the last activity is
      the time of the last entry. */
  lemma AfterMessageAppends(memory: ChatMemory, message: string, receivedAt: int, reply: Result<string, string>, repliedAt: int)
    ensures var m := AfterMessage(memory, message, receivedAt, reply, repliedAt);
      m.sessionId == memory.sessionId &&
      (reply.Success? ==>
        m.messages == memory.messages + [Entry(User, message, receivedAt), Entry(Assistant, reply.value, repliedAt)] &&
        m.lastActivity == repliedAt) &&
      (reply.Failure? ==>
        m.messages == memory.messages + [Entry(User, message, receivedAt)] && m.lastActivity == receivedAt)
  {
    if reply.Success? {
      var user := Entry(User, message, receivedAt);
      var answer := Entry(Assistant, reply.value, repliedAt);
      assert memory.messages + [user] + [answer] == memory.messages + [user, answer];
    }
  }

  // What the model is given

  /** The number of remembered messages handed to the model. */
  const ContextWindow: nat := 20

  /** `messages.slice(-20)`: the last 20 entries, or all of them when there are fewer. */
  function Recent(messages: seq<Entry>): seq<Entry>
  {
    if |messages| <= ContextWindow then messages else messages[|messages| - ContextWindow..]
  }

  /** A message as the model sees it. */
  datatype ModelMessage = Human(text: string) | Ai(text: string)

  function ToModel(e: Entry): ModelMessage {
    if e.role == User then Human(e.content) else Ai(e.content)
  }

  function ToModelAll(entries: seq<Entry>): (r: seq<ModelMessage>)
    ensures |r| == |entries|
    ensures forall i :: 0 <= i < |entries| ==> r[i] == ToModel(entries[i])
  {
    if entries == [] then [] else [ToModel(entries[0])] + ToModelAll(entries[1..])
  }

  /** The messages handed to the model: the recent entries, and the current message once more
      when the last recent entry does not already hold it. */
  function ModelContext(messages: seq<Entry>, message: string): seq<ModelMessage>
  {
    var recent := Recent(messages);
    var converted := ToModelAll(recent);
    if |recent| == 0 || recent[|recent| - 1].content != message then converted + [Human(message)]
    else converted
  }

  /** Once the user's entry is remembered, the context is exactly the last (at most 20)
      remembered entries and ends with the current message: the guard never adds it twice. */
  lemma ContextEndsWithCurrent(memory: ChatMemory, message: string, now: int)
    ensures var messages := Remember(memory, User, message, now).messages;
      var context := ModelContext(messages, message);
      context == ToModelAll(Recent(messages)) &&
      1 <= |context| <= ContextWindow &&
      context[|context| - 1] == Human(message)
  {
    var messages := Remember(memory, User, message, now).messages;
    var recent := Recent(messages);
    var n := |messages|;
    if n > ContextWindow {
      assert |recent| == ContextWindow;
      assert recent[|recent| - 1] == messages[n - 1];
    }
    assert recent[|recent| - 1].content == message;
  }

  // Errors

  // Each reply is written as its first words and the rest, so that its first characters
  // are visible to the verifier.
  const AuthErrorReply := "❌ Authentication" + " error with AI service. Please check the API configuration."
  const FundsErrorReply := "❌ Insufficient" + " funds! Please make sure you have enough ETH in your " +
      "wallet for this transaction. You can get testnet ETH " +
      "from the Base Sepolia faucet."
  const AddressErrorReply := "❌ Invalid" + " address format! Please provide a valid Ethereum address " +
      "(starting with 0x) or ENS name."
  const NetworkErrorReply := "❌ Network" + " error! Please check your connection and try again."

  /** The reply to an error thrown while handling a message: the first of "401",
      "insufficient funds", "invalid address" and "network" the message contains picks a
      fixed reply, and any other error is quoted in a generic one. */
  function ProcessErrorReply(errorMessage: string): string
  {
    if Contains(errorMessage, "401") then AuthErrorReply
    else if Contains(errorMessage, "insufficient funds") then FundsErrorReply
    else if Contains(errorMessage, "invalid address") then AddressErrorReply
    else if Contains(errorMessage, "network") then NetworkErrorReply
    else GenericErrorReply(errorMessage)
  }

  function GenericErrorReply(errorMessage: string): (r: string)
    ensures Contains(r, errorMessage)
  {
    var prefix := "❌ Sorry, I encountered an error: ";
    var r := prefix + (errorMessage + ". Please try again or rephrase your request.");
    assert OccursAt(r, errorMessage, |prefix|) by {
      assert r[|prefix|..|prefix| + |errorMessage|] == errorMessage;
    }
    r
  }

  lemma FixedRepliesDistinct()
    ensures AuthErrorReply[2] == 'A' && FundsErrorReply[2] == 'I' && AddressErrorReply[2] == 'I'
    ensures AddressErrorReply[4] == 'v' && FundsErrorReply[4] == 's'
    ensures NetworkErrorReply[2] == 'N'
  {
  }

  /** The generic reply starts like none of the fixed ones. */
  lemma GenericReplyStart(errorMessage: string)
    ensures GenericErrorReply(errorMessage)[2] == 'S'
  {
    var prefix := "❌ Sorry, I encountered an error: ";
    assert prefix[2] == 'S';
  }

  /** The first matching substring wins: each fixed reply is given exactly when its substring
      occurs and none of the earlier ones does, and otherwise the reply quotes the error. */
  lemma ProcessErrorOrder(errorMessage: string)
    ensures ProcessErrorReply(errorMessage) == AuthErrorReply <==> Contains(errorMessage, "401")
    ensures ProcessErrorReply(errorMessage) == FundsErrorReply <==>
      !Contains(errorMessage, "401") && Contains(errorMessage, "insufficient funds")
    ensures ProcessErrorReply(errorMessage) == AddressErrorReply <==>
      !Contains(errorMessage, "401") && !Contains(errorMessage, "insufficient funds") &&
      Contains(errorMessage, "invalid address")
    ensures ProcessErrorReply(errorMessage) == NetworkErrorReply <==>
      !Contains(errorMessage, "401") && !Contains(errorMessage, "insufficient funds") &&
      !Contains(errorMessage, "invalid address") && Contains(errorMessage, "network")
    ensures (!Contains(errorMessage, "401") && !Contains(errorMessage, "insufficient funds") &&
             !Contains(errorMessage, "invalid address") && !Contains(errorMessage, "network")) ==>
      Contains(ProcessErrorReply(errorMessage), errorMessage)
  {
    FixedRepliesDistinct();
    GenericReplyStart(errorMessage);
  }

  /** What the caller receives: the model's answer, or the reply to its error. */
  function Answer(reply: Result<string, string>): string
  {
    match reply
    case Success(content) => content
    case Failure(error) => ProcessErrorReply(error)
  }

  // The store

  /** `chatMemoryStore` and the operations that change it. */
  class MemoryStore {
    /** The sessions, by session id. */
    var sessions: map<string, ChatMemory>

    constructor()
      ensures sessions == map[]
    {
      sessions := map[];
    }

    /** `cleanupOldMemories()` at time `now`: deletes every expired session. */
    method CleanupOldMemories(now: int)
      modifies this
      ensures sessions == Swept(old(sessions), now)
    {
      var keys := sessions.Keys;
      ghost var start := sessions;
      while keys != {}
        invariant keys <= start.Keys
        invariant sessions == map k | k in start && (k in keys || !Expired(start[k], now)) :: start[k]
        decreases keys
      {
        var k :| k in keys;
        if now - sessions[k].lastActivity > MaxAge {
          sessions := sessions - {k};
        }
        keys := keys - {k};
      }
    }

    /** The memory steps of `processMessage`: finds or creates the session's record, adds the
        user's entry, hands the model the context, and adds its answer. Returns the context
        and the reply the caller receives. */
    method ProcessMessage(sessionId: string, message: string, stored: Option<ChatMemory>,
                          receivedAt: int, reply: Result<string, string>, repliedAt: int)
      returns (context: seq<ModelMessage>, response: string)
      modifies this
      ensures var memory := SessionFor(old(sessions), sessionId, stored, receivedAt);
        sessions == old(sessions)[sessionId := AfterMessage(memory, message, receivedAt, reply, repliedAt)] &&
        context == ModelContext(Remember(memory, User, message, receivedAt).messages, message)
      ensures response == Answer(reply)
    {
      var memory := SessionFor(sessions, sessionId, stored, receivedAt);
      var asked := Remember(memory, User, message, receivedAt);
      sessions := sessions[sessionId := asked];
      context := ModelContext(asked.messages, message);
      match reply {
        case Success(content) =>
          UpdateTwice(old(sessions), sessionId, asked, Remember(asked, Assistant, content, repliedAt));
          sessions := sessions[sessionId := Remember(asked, Assistant, content, repliedAt)];
          response := content;
        case Failure(error) =>
          response := ProcessErrorReply(error);
      }
    }
  }
}

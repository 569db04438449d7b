/**
 * The `/chat` and `/delete_thread` handlers and the `sessions` dictionary
 * they share, which maps a browser session id to the id of the agent thread
 * holding that session's conversation.
 *
 * Every call into the agent service is an input: the outcome the service
 * would give (`Returned(value)` or `Raised`). The calls the handlers make
 * are recorded, in order, in the ghost trace `calls`, so that "no thread is
 * created", "nothing is called" and "the remote delete comes after the pop"
 * can be stated.
 */
module ChatApp {
  import opened Wrappers
  import opened Formatter

  /** What one call into the agent service does: return a value or raise. */
  datatype Outcome<T> = Returned(value: T) | Raised

  /** A message of a thread as listed by the service: its role and its text contents, in order. */
  datatype Message = Message(role: string, texts: seq<string>)

  /** A JSON response: the status code, the single key of the body, and its string value. */
  datatype Response = Response(status: nat, key: string, text: string)

  /** The calls into the agent service, with the thread each one is about. */
  datatype ServiceCall =
    | CreateThread
    | PostMessage(thread: string, content: string)
    | RunAgent(thread: string)
    | ListMessages(thread: string)
    | DeleteRemote(thread: string)

  const BadRequest := Response(400, "error", "Message or Session ID not provided")
  const ServerError := Response(500, "error", "An internal server error occurred.")
  const NotFound := Response(404, "message", "Session ID not found")
  const Deleted := Response(200, "message", "Thread deleted successfully")
  const RunFailedText := "Sorry, the agent run failed. Please try again."
  const NoResponseText := "No response from agent."

  /** `not user_message or not session_id` is false: both are present and non-empty. */
  predicate Provided(message: Option<string>, sessionId: Option<string>) {
    message.Some? && message.value != "" && sessionId.Some? && sessionId.value != ""
  }

  /** A message the reply can be taken from: the assistant's, with at least one text. */
  predicate IsAnswer(m: Message) {
    m.role == "assistant" && m.texts != []
  }

  /** The index of the first answer in the newest-first listing, if there is one. */
  function FirstAnswer(messages: seq<Message>): (r: Option<nat>)
    ensures r.Some? ==> r.value < |messages| && IsAnswer(messages[r.value])
    ensures r.Some? ==> forall k :: 0 <= k < r.value ==> !IsAnswer(messages[k])
    ensures r.None? ==> forall k :: 0 <= k < |messages| ==> !IsAnswer(messages[k])
  {
    if messages == [] then None
    else if IsAnswer(messages[0]) then Some(0)
    else match FirstAnswer(messages[1..])
      case None => None
      case Some(k) => Some(k + 1)
  }

  /** The text `chat` sends back after a run that did not fail. */
  function ReplyText(messages: seq<Message>): string {
    match FirstAnswer(messages)
    case None => NoResponseText
    case Some(k) => Formatted(messages[k].texts[0])
  }

  /**
   * The loop over the listed messages: the first answer's first text,
   * formatted, or the fixed fallback when no message is an answer.
   */
  method SelectReply(messages: seq<Message>) returns (agentResponse: string)
    ensures agentResponse == ReplyText(messages)
  {
    agentResponse := NoResponseText;
    for i := 0 to |messages|
      invariant forall k :: 0 <= k < i ==> !IsAnswer(messages[k])
      invariant agentResponse == NoResponseText
    {
      var message := messages[i];
      if message.role == "assistant" && message.texts != [] {
        FirstAnswerAt(messages, i);
        agentResponse := FormatAgentResponse(message.texts[0]);
        return;
      }
    }
    NoAnswer(messages);
  }

  lemma FirstAnswerAt(messages: seq<Message>, i: nat)
    requires i < |messages| && IsAnswer(messages[i])
    requires forall k :: 0 <= k < i ==> !IsAnswer(messages[k])
    ensures ReplyText(messages) == Formatted(messages[i].texts[0])
  {
    assert FirstAnswer(messages) == Some(i);
  }

  lemma NoAnswer(messages: seq<Message>)
    requires forall k :: 0 <= k < |messages| ==> !IsAnswer(messages[k])
    ensures ReplyText(messages) == NoResponseText
  {
    assert FirstAnswer(messages).None?;
  }

  /**
   * The calls `chat` makes once it has the thread: post the message, run
   * the agent, list the messages, stopping at the first call that raises
   * and not listing after a failed run.
   */
  function Exchange(thread: string, content: string, posted: Outcome<()>, run: Outcome<string>): seq<ServiceCall> {
    [PostMessage(thread, content)]
    + (if posted.Raised? then []
       else [RunAgent(thread)] + (if run.Raised? || run.value == "failed" then [] else [ListMessages(thread)]))
  }

  /** The response `chat` gives once it has the thread. */
  function Answer(posted: Outcome<()>, run: Outcome<string>, listed: Outcome<seq<Message>>): Response {
    if posted.Raised? || run.Raised? then ServerError
    else if run.value == "failed" then Response(200, "response", RunFailedText)
    else if listed.Raised? then ServerError
    else Response(200, "response", ReplyText(listed.value))
  }

  class SessionStore {
    /** `sessions`: session id to thread id. */
    var sessions: map<string, string>
    /** The calls made into the agent service so far, oldest first. */
    ghost var calls: seq<ServiceCall>

    /** No session is stored under the empty id: `chat` refuses it. */
    predicate Valid()
      reads this
    {
      "" !in sessions
    }

    constructor()
      ensures Valid() && sessions == map[] && calls == []
    {
      sessions := map[];
      calls := [];
    }

    /**
     * `chat`. A missing or empty message or session id is refused before
     * anything else happens. A thread is created only for an unknown
     * session, and the session is stored only once the thread exists; a
     * known session keeps its thread. No other session is touched.
     */
    method Chat(message: Option<string>, sessionId: Option<string>,
                created: Outcome<string>, posted: Outcome<()>, run: Outcome<string>, listed: Outcome<seq<Message>>)
      returns (response: Response)
      requires Valid()
      modifies this
      ensures Valid()
      ensures !Provided(message, sessionId) ==>
        response == BadRequest && sessions == old(sessions) && calls == old(calls)
      ensures Provided(message, sessionId) && sessionId.value in old(sessions) ==>
        var thread := old(sessions)[sessionId.value];
        && sessions == old(sessions)
        && calls == old(calls) + Exchange(thread, message.value, posted, run)
        && response == Answer(posted, run, listed)
      ensures Provided(message, sessionId) && sessionId.value !in old(sessions) && created.Raised? ==>
        sessions == old(sessions) && calls == old(calls) + [CreateThread] && response == ServerError
      ensures Provided(message, sessionId) && sessionId.value !in old(sessions) && created.Returned? ==>
        && sessions == old(sessions)[sessionId.value := created.value]
        && calls == old(calls) + [CreateThread] + Exchange(created.value, message.value, posted, run)
        && response == Answer(posted, run, listed)
    {
      if message.None? || message.value == "" || sessionId.None? || sessionId.value == "" {
        return BadRequest;
      }
      var userMessage, id := message.value, sessionId.value;
      if id !in sessions {
        calls := calls + [CreateThread];
        if created.Raised? {
          return ServerError;
        }
        sessions := sessions[id := created.value];
      }
      var threadId := sessions[id];
      calls := calls + [PostMessage(threadId, userMessage)];
      if posted.Raised? {
        return ServerError;
      }
      calls := calls + [RunAgent(threadId)];
      if run.Raised? {
        return ServerError;
      }
      if run.value == "failed" {
        return Response(200, "response", RunFailedText);
      }
      calls := calls + [ListMessages(threadId)];
      if listed.Raised? {
        return ServerError;
      }
      var agentResponse := SelectReply(listed.value);
      response := Response(200, "response", agentResponse);
    }

    /**
     * `delete_thread`. An empty or unknown session id gives 404 and changes
     * nothing. Otherwise the session is removed first and the remote thread
     * deleted after, so the session is gone even when the remote delete
     * raises.
     */
    method DeleteThread(sessionId: Option<string>, deleted: Outcome<()>) returns (response: Response)
      requires Valid()
      modifies this
      ensures Valid()
      ensures sessionId.None? || sessionId.value !in old(sessions) ==>
        response == NotFound && sessions == old(sessions) && calls == old(calls)
      ensures sessionId.Some? && sessionId.value in old(sessions) ==>
        && sessions == old(sessions) - {sessionId.value}
        && calls == old(calls) + [DeleteRemote(old(sessions)[sessionId.value])]
        && response == (if deleted.Raised? then ServerError else Deleted)
    {
      if sessionId.None? || sessionId.value == "" || sessionId.value !in sessions {
        return NotFound;
      }
      var id := sessionId.value;
      var threadId := sessions[id];
      sessions := sessions - {id};
      calls := calls + [DeleteRemote(threadId)];
      if deleted.Raised? {
        return ServerError;
      }
      return Deleted;
    }
  }

  /** The reply is taken from the first answer in the listing; the messages after it do not matter. */
  lemma ReplyFromFirstAnswer(before: seq<Message>, m: Message, after: seq<Message>)
    requires forall k :: 0 <= k < |before| ==> !IsAnswer(before[k])
    requires IsAnswer(m)
    ensures ReplyText(before + [m] + after) == Formatted(m.texts[0])
  {
    var ms := before + [m] + after;
    forall k | 0 <= k < |before| ensures !IsAnswer(ms[k]) {
      assert ms[k] == before[k];
    }
    assert ms[|before|] == m;
    FirstAnswerAt(ms, |before|);
  }

  /** Every call of the exchange is about the session's own thread. */
  lemma ExchangeStaysOnThread(thread: string, content: string, posted: Outcome<()>, run: Outcome<string>)
    ensures var ex := Exchange(thread, content, posted, run);
      forall k :: 0 <= k < |ex| ==> !ex[k].CreateThread? && ex[k].thread == thread
  {
  }

  /** `chat` answers 200 exactly when every call it made returned; a failed run is still a 200. */
  lemma AnswerSucceeds(posted: Outcome<()>, run: Outcome<string>, listed: Outcome<seq<Message>>)
    ensures Answer(posted, run, listed).status == 200 <==>
      posted.Returned? && run.Returned? && (run.value == "failed" || listed.Returned?)
    ensures Answer(posted, run, listed).status != 200 ==> Answer(posted, run, listed) == ServerError
  {
  }

  /**
   * A session's life: the first message creates a thread, the second reuses
   * it without creating another (whatever the service would have returned),
   * the first delete removes the session and the second finds nothing.
   */
  method SessionLifecycle(id: string, first: string, second: string, thread: string, other: string, reply: seq<Message>)
    returns (threads: seq<string>, deletes: seq<Response>, ghost creates: nat)
    requires id != "" && first != "" && second != ""
    ensures threads == [thread, thread]
    ensures creates == 1
    ensures deletes == [Deleted, NotFound]
  {
    var store := new SessionStore();
    var r1 := store.Chat(Some(first), Some(id), Returned(thread), Returned(()), Returned("completed"), Returned(reply));
    threads := [store.sessions[id]];
    var r2 := store.Chat(Some(second), Some(id), Returned(other), Returned(()), Returned("completed"), Returned(reply));
    threads := threads + [store.sessions[id]];
    ExchangeCreatesNothing(thread, first, Returned(()), Returned("completed"));
    ExchangeCreatesNothing(thread, second, Returned(()), Returned("completed"));
    ghost var ex1 := Exchange(thread, first, Returned(()), Returned("completed"));
    ghost var ex2 := Exchange(thread, second, Returned(()), Returned("completed"));
    assert store.calls == [CreateThread] + ex1 + ex2;
    CreatedOnce(ex1, ex2);
    creates := |CreateCalls(store.calls)|;
    var d1 := store.DeleteThread(Some(id), Returned(()));
    var d2 := store.DeleteThread(Some(id), Returned(()));
    deletes := [d1, d2];
  }

  /** One creation followed by two exchanges creates exactly one thread. */
  lemma CreatedOnce(ex1: seq<ServiceCall>, ex2: seq<ServiceCall>)
    requires CreateCalls(ex1) == [] && CreateCalls(ex2) == []
    ensures |CreateCalls([CreateThread] + ex1 + ex2)| == 1
  {
    CreateCallsAppend([CreateThread], ex1);
    CreateCallsAppend([CreateThread] + ex1, ex2);
  }

  /** The thread creations among `calls`. */
  function CreateCalls(calls: seq<ServiceCall>): (r: seq<ServiceCall>)
    ensures forall k :: 0 <= k < |r| ==> r[k] == CreateThread
    ensures |r| <= |calls|
  {
    if calls == [] then []
    else (if calls[0] == CreateThread then [CreateThread] else []) + CreateCalls(calls[1..])
  }

  lemma {:induction false} CreateCallsAppend(a: seq<ServiceCall>, b: seq<ServiceCall>)
    ensures CreateCalls(a + b) == CreateCalls(a) + CreateCalls(b)
    decreases |a|
  {
    if a != [] {
      assert (a + b)[0] == a[0] && (a + b)[1..] == a[1..] + b;
      CreateCallsAppend(a[1..], b);
    } else {
      assert a + b == b;
    }
  }

  lemma ExchangeCreatesNothing(thread: string, content: string, posted: Outcome<()>, run: Outcome<string>)
    ensures CreateCalls(Exchange(thread, content, posted, run)) == []
  {
    var ex := Exchange(thread, content, posted, run);
    ExchangeStaysOnThread(thread, content, posted, run);
    NoCreateCalls(ex);
  }

  lemma {:induction false} NoCreateCalls(calls: seq<ServiceCall>)
    requires forall k :: 0 <= k < |calls| ==> !calls[k].CreateThread?
    ensures CreateCalls(calls) == []
    decreases |calls|
  {
    if calls != [] {
      NoCreateCalls(calls[1..]);
    }
  }
}

/** The two tables of `database.py` — `pdf_sessions` and `chat_messages` — as
    records, their key and foreign-key constraints as an invariant, the cascade
    that deletes a session's messages with it, and the store holding both tables. */
module Database {

  /** A row of `pdf_sessions`; every column is required. */
  datatype PdfSession = PdfSession(sessionId: string, pdfName: string, text: string, summary: string)

  /** A row of `chat_messages`; the timestamp is an abstract clock reading. */
  datatype ChatMessage = ChatMessage(id: string, sessionId: string, userMessage: string, botResponse: string, timestamp: int)

  /** `pdf_sessions` keyed by its primary key, so one row per id. */
  type Sessions = map<string, PdfSession>

  /** The primary key of `chat_messages`: no two messages share an id. */
  predicate UniqueIds(messages: seq<ChatMessage>) {
    forall a, b :: 0 <= a < b < |messages| ==> messages[a].id != messages[b].id
  }

  /** An id no message carries yet: what a fresh `uuid4()` gives. */
  predicate FreshMessageId(messages: seq<ChatMessage>, id: string) {
    forall k :: 0 <= k < |messages| ==> messages[k].id != id
  }

  /** The store invariant: each session is filed under its own id and has
      non-empty text (uploads are refused otherwise); every message refers to a
      stored session; message ids are unique. */
  predicate Consistent(sessions: Sessions, messages: seq<ChatMessage>) {
    (forall id :: id in sessions ==> sessions[id].sessionId == id && sessions[id].text != "") &&
    (forall k :: 0 <= k < |messages| ==> messages[k].sessionId in sessions) &&
    UniqueIds(messages)
  }

  /** The messages of one session, in insertion order. */
  function MessagesOf(messages: seq<ChatMessage>, sid: string): seq<ChatMessage> {
    if messages == [] then []
    else (if messages[0].sessionId == sid then [messages[0]] else []) + MessagesOf(messages[1..], sid)
  }

  /** The messages left once those of session `sid` are deleted. */
  function WithoutSession(messages: seq<ChatMessage>, sid: string): seq<ChatMessage> {
    if messages == [] then []
    else (if messages[0].sessionId != sid then [messages[0]] else []) + WithoutSession(messages[1..], sid)
  }

  /** Deleting a session's messages keeps exactly the messages of other sessions. */
  lemma {:induction false} WithoutSessionMembers(messages: seq<ChatMessage>, sid: string)
    ensures forall m :: m in WithoutSession(messages, sid) <==> m in messages && m.sessionId != sid
    ensures |WithoutSession(messages, sid)| <= |messages|
  {
    if messages != [] {
      WithoutSessionMembers(messages[1..], sid);
      assert messages == [messages[0]] + messages[1..];
    }
  }

  /** No message of the deleted session survives, and every other session's
      messages are exactly the same, in the same order. */
  lemma {:induction false} WithoutSessionKeepsOthers(messages: seq<ChatMessage>, sid: string, other: string)
    ensures MessagesOf(WithoutSession(messages, sid), sid) == []
    ensures other != sid ==> MessagesOf(WithoutSession(messages, sid), other) == MessagesOf(messages, other)
  {
    if messages != [] {
      WithoutSessionKeepsOthers(messages[1..], sid, other);
      var rest := WithoutSession(messages[1..], sid);
      if messages[0].sessionId != sid {
        assert WithoutSession(messages, sid) == [messages[0]] + rest;
        assert ([messages[0]] + rest)[1..] == rest;
      } else {
        assert WithoutSession(messages, sid) == [] + rest == rest;
      }
    }
  }

  /** Deleting messages keeps message ids unique. */
  lemma {:induction false} WithoutSessionUniqueIds(messages: seq<ChatMessage>, sid: string)
    requires UniqueIds(messages)
    ensures UniqueIds(WithoutSession(messages, sid))
  {
    if messages != [] {
      var head, tail := messages[0], messages[1..];
      assert UniqueIds(tail) by {
        forall a, b | 0 <= a < b < |tail| ensures tail[a].id != tail[b].id {
          assert tail[a] == messages[a + 1] && tail[b] == messages[b + 1];
        }
      }
      WithoutSessionUniqueIds(tail, sid);
      WithoutSessionMembers(tail, sid);
      var rest := WithoutSession(tail, sid);
      if head.sessionId != sid {
        var r := [head] + rest;
        forall b | 0 < b < |r| ensures r[0].id != r[b].id {
          assert r[b] in tail;
          var q :| 0 <= q < |tail| && tail[q] == r[b];
          assert messages[q + 1] == r[b];
        }
      }
    }
  }

  /** Upload keeps the invariant: a new session under a fresh id with non-empty text. */
  lemma ConsistentAfterInsert(sessions: Sessions, messages: seq<ChatMessage>, s: PdfSession)
    requires Consistent(sessions, messages)
    requires s.sessionId !in sessions && s.text != ""
    ensures Consistent(sessions[s.sessionId := s], messages)
    ensures sessions[s.sessionId := s].Keys == sessions.Keys + {s.sessionId}
  {
  }

  /** Chat keeps the invariant: one message with a fresh id for a stored session. */
  lemma ConsistentAfterAppend(sessions: Sessions, messages: seq<ChatMessage>, m: ChatMessage)
    requires Consistent(sessions, messages)
    requires m.sessionId in sessions && FreshMessageId(messages, m.id)
    ensures Consistent(sessions, messages + [m])
  {
  }

  /** Ending a session keeps the invariant: the session goes, and its messages with it. */
  lemma ConsistentAfterDelete(sessions: Sessions, messages: seq<ChatMessage>, sid: string)
    requires Consistent(sessions, messages)
    ensures Consistent(sessions - {sid}, WithoutSession(messages, sid))
  {
    WithoutSessionMembers(messages, sid);
    WithoutSessionUniqueIds(messages, sid);
    var r := WithoutSession(messages, sid);
    forall k | 0 <= k < |r| ensures r[k].sessionId in sessions - {sid} {
      assert r[k] in r;
      var q :| 0 <= q < |messages| && messages[q] == r[k];
    }
  }

  /** The two tables. */
  class Store {
    var sessions: Sessions
    var messages: seq<ChatMessage>

    predicate Valid()
      reads this
    {
      Consistent(sessions, messages)
    }

    /** A store with both tables empty. */
    constructor ()
      ensures Valid() && sessions == map[] && messages == []
    {
      sessions := map[];
      messages := [];
    }
  }
}

/** The three request handlers of `routes/pdf.py` over the store: upload,
    chat and end of chat. Everything the handlers get from outside — the PDF
    parser's pages, the services' replies, a fresh uuid, the clock — is a
    parameter. */
module Routes {
  import opened Prelude
  import opened Text
  import opened Http
  import opened Extract
  import opened Chunking
  import opened Ranking
  import opened Answering
  import opened Database

  /** The external capabilities the chat flow calls: the tokenizer and its
      inverse, the TF-IDF similarity of the question to chunk i of a list of
      chunks, and the question-answering service. */
  datatype Services = Services(
    tokenize: string -> seq<string>,
    detokenize: seq<string> -> string,
    similarity: (string, seq<string>, nat) -> real,
    qa: (string, string) -> QaResponse)

  /** The checks of `upload_pdf` in the order it makes them: the signature,
      then the parser, then the text. On success, the text to store. */
  function CheckUpload(bytes: seq<byte>, parsed: Option<Pages>): (r: Result<string, HttpError>)
    ensures r.Success? ==> r.value != ""
  {
    if !HasPdfSignature(bytes) then Failure(InvalidPdf)
    else if parsed.None? then Failure(ProcessingError)
    else
      var text := ExtractedText(parsed.value);
      if Strip(text) == "" then Failure(NoReadableText) else Success(text)
  }

  /** Upload succeeds exactly for a signed file whose parsed pages are not all
      blank; each failure has its own error, checked in the source's order; the
      stored text is the extracted text, already stripped. */
  lemma CheckUploadOutcomes(bytes: seq<byte>, parsed: Option<Pages>)
    ensures CheckUpload(bytes, parsed).Success? <==>
              HasPdfSignature(bytes) && parsed.Some? && exists k :: 0 <= k < |parsed.value| && !BlankPage(parsed.value[k])
    ensures !HasPdfSignature(bytes) ==> CheckUpload(bytes, parsed) == Failure(InvalidPdf)
    ensures HasPdfSignature(bytes) && parsed.None? ==> CheckUpload(bytes, parsed) == Failure(ProcessingError)
    ensures HasPdfSignature(bytes) && parsed.Some? && (forall k :: 0 <= k < |parsed.value| ==> BlankPage(parsed.value[k])) ==>
              CheckUpload(bytes, parsed) == Failure(NoReadableText)
    ensures CheckUpload(bytes, parsed).Success? ==>
              CheckUpload(bytes, parsed).value == ExtractedText(parsed.value) &&
              Strip(CheckUpload(bytes, parsed).value) == CheckUpload(bytes, parsed).value
  {
    if HasPdfSignature(bytes) && parsed.Some? {
      StripIdempotent(Joined(parsed.value));
    }
  }

  /** The validation steps of `upload_pdf`, each raising its own 400 error. */
  method ValidateUpload(bytes: seq<byte>, parsed: Option<Pages>) returns (r: Result<string, HttpError>)
    ensures r == CheckUpload(bytes, parsed)
  {
    if !HasPdfSignature(bytes) {
      return Failure(InvalidPdf);
    }
    r := ExtractText(parsed);
    if r.Success? && Strip(r.value) == "" {
      r := Failure(NoReadableText);
    }
  }

  /** `POST /upload`. The session is stored only when every check passes; a
      failed summary call never prevents it. */
  method UploadPdf(db: Store, sessionId: string, fileName: string, bytes: seq<byte>,
                   parsed: Option<Pages>, summaryResponse: SummaryResponse) returns (reply: UploadReply)
    requires db.Valid() && sessionId !in db.sessions
    modifies db
    ensures db.Valid()
    ensures db.messages == old(db.messages)
    ensures match CheckUpload(bytes, parsed)
            case Failure(e) => reply == UploadRejected(e) && db.sessions == old(db.sessions)
            case Success(text) =>
              reply == Uploaded(UploadedMessage, sessionId, GetSummary(summaryResponse)) &&
              db.sessions == old(db.sessions)[sessionId := PdfSession(sessionId, fileName, text, GetSummary(summaryResponse))]
  {
    var checked := ValidateUpload(bytes, parsed);
    if checked.Failure? {
      return UploadRejected(checked.error);
    }
    var text := checked.value;
    var summary := GetSummary(summaryResponse);
    var session := PdfSession(sessionId, fileName, text, summary);
    ConsistentAfterInsert(db.sessions, db.messages, session);
    db.sessions := db.sessions[sessionId := session];
    reply := Uploaded(UploadedMessage, sessionId, summary);
    assert db.sessions == old(db.sessions)[sessionId := PdfSession(sessionId, fileName, text, summary)];
  }

  /** The chunk texts of `split_text_into_chunks(text)`: the function form of
      `SplitTextIntoChunks`'s result, for use in contracts (`Chat` proves the two equal). */
  function ChunkTexts(text: string, svc: Services): (chunks: seq<string>)
    ensures |chunks| == WindowCount(|svc.tokenize(text)|)
  {
    var tokens := svc.tokenize(text);
    seq(WindowCount(|tokens|), k requires 0 <= k < WindowCount(|tokens|) =>
      WindowShape(tokens, k); svc.detokenize(Window(tokens, k)))
  }

  /** The answer the chat flow gives for a question about a stored text:
      chunk, keep the most relevant chunk, ask the service about it. */
  function ChatResponse(text: string, question: string, svc: Services): (r: string)
    ensures r != ""
  {
    var relevant := GetMostRelevantChunk(ChunkTexts(text, svc), question, svc.similarity, 1);
    SelectAnswer(Responses(relevant, question, svc.qa))
  }

  /** `POST /chat/`. An unknown session is refused and nothing is stored;
      otherwise exactly one message is appended and the sessions stay as they are. */
  method Chat(db: Store, sessionId: string, message: string, messageId: string, timestamp: int, svc: Services)
    returns (reply: ChatReply)
    requires db.Valid() && FreshMessageId(db.messages, messageId)
    modifies db
    ensures db.Valid()
    ensures db.sessions == old(db.sessions)
    ensures sessionId !in old(db.sessions) ==> reply == ChatRejected(InvalidSession) && db.messages == old(db.messages)
    ensures sessionId in old(db.sessions) ==>
              reply == Answered(ChatResponse(old(db.sessions)[sessionId].text, message, svc)) &&
              db.messages == old(db.messages) + [ChatMessage(messageId, sessionId, message, reply.response, timestamp)]
  {
    if sessionId !in db.sessions {
      return ChatRejected(InvalidSession);
    }
    var session := db.sessions[sessionId];
    var textChunks := SplitTextIntoChunks(session.text, svc.tokenize, svc.detokenize);
    assert textChunks == ChunkTexts(session.text, svc);
    var relevantChunks := GetMostRelevantChunk(textChunks, message, svc.similarity, 1);
    var responseText := GetAnswer(relevantChunks, message, svc.qa);
    var chatMessage := ChatMessage(messageId, sessionId, message, responseText, timestamp);
    ConsistentAfterAppend(db.sessions, db.messages, chatMessage);
    db.messages := db.messages + [chatMessage];
    reply := Answered(responseText);
  }

  /** `DELETE /chat/end/{session_id}`. An unknown session is refused and nothing
      changes; otherwise the session and all of its messages are deleted. */
  method EndChat(db: Store, sessionId: string) returns (reply: EndReply)
    requires db.Valid()
    modifies db
    ensures db.Valid()
    ensures sessionId !in old(db.sessions) ==>
              reply == EndRejected(InvalidSession) && db.sessions == old(db.sessions) && db.messages == old(db.messages)
    ensures sessionId in old(db.sessions) ==>
              reply == Ended(EndedMessage) &&
              db.sessions == old(db.sessions) - {sessionId} &&
              db.messages == WithoutSession(old(db.messages), sessionId)
  {
    if sessionId !in db.sessions {
      return EndRejected(InvalidSession);
    }
    ConsistentAfterDelete(db.sessions, db.messages, sessionId);
    db.messages := WithoutSession(db.messages, sessionId);
    db.sessions := db.sessions - {sessionId};
    reply := Ended(EndedMessage);
  }

  /** A short document (one window of tokens) whose only chunk the service
      answers with "blue" at score 0.91 gets the answer "blue". */
  lemma OneChunkAnswer(text: string, question: string, svc: Services)
    requires 0 < |svc.tokenize(text)| <= Stride
    requires svc.qa(svc.detokenize(svc.tokenize(text)), question) == QaResponse(200, Some(0.91), Some("blue"))
    ensures ChatResponse(text, question, svc) == "blue"
  {
    var tokens := svc.tokenize(text);
    ShortInputOneWindow(tokens);
    var chunks := ChunkTexts(text, svc);
    assert chunks == [svc.detokenize(tokens)];
    var relevant := GetMostRelevantChunk(chunks, question, svc.similarity, 1);
    assert relevant == chunks;
    var rs := Responses(relevant, question, svc.qa);
    assert rs == [QaResponse(200, Some(0.91), Some("blue"))];
    assert IsWinner(rs, 0);
  }

  /** After a session is ended, a question about it is refused and stores nothing. */
  method EndThenAsk(db: Store, sessionId: string, message: string, messageId: string, timestamp: int, svc: Services)
    returns (reply: ChatReply)
    requires db.Valid() && FreshMessageId(db.messages, messageId)
    modifies db
    ensures reply == ChatRejected(InvalidSession)
    ensures db.sessions == old(db.sessions) - {sessionId}
    ensures sessionId !in db.sessions
    ensures forall k :: 0 <= k < |db.messages| ==> db.messages[k].sessionId != sessionId
  {
    WithoutSessionMembers(db.messages, sessionId);
    var ended := EndChat(db, sessionId);
    reply := Chat(db, sessionId, message, messageId, timestamp, svc);
  }
}

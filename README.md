# PDF question answering back end, modelled in Dafny

The back end of this application accepts an uploaded PDF. It checks the file's
`%PDF` signature, extracts the text page by page, gets a summary from an
external summarization service, and stores the document as a session. Later
questions about that session are answered in five steps:

1. The stored text is split into overlapping windows of 512 tokens, each starting 412 tokens after the previous one.
2. The windows are ranked by TF-IDF similarity to the question.
3. The best window goes to an external extractive question-answering service.
4. The first answer with the highest positive confidence is kept.
5. The exchange is stored.

Ending a session deletes it together with its messages.

The model covers the request handlers and helpers of `backend/app/routes/pdf.py` and
the two tables of `backend/app/database.py`:

- `prelude.dfy` (`Prelude`): `Option`, `Result`, `Min`.
- `text.dfy` (`Text`): Python's `str.strip()`, with Python's full `str.isspace()` character set.
- `http.dfy` (`Http`): status codes, the fixed error details and success messages, and the reply of each handler.
- `extract.dfy` (`Extract`): the `%PDF` signature, `extract_text`, and `get_summary`'s mapping of the service's reply.
- `chunking.dfy` (`Chunking`): `split_text_into_chunks` with its defaults, window 512 and overlap 100.
- `ranking.dfy` (`Ranking`): the selection part of `get_most_relevant_chunk` (argsort, last `top_n`, reversed).
- `answer.dfy` (`Answering`): `get_answer`'s loop over the service's replies and its `or` fallback.
- `database.dfy` (`Database`): the session and message records, the store invariant (keys, foreign key), the cascade delete, and the `Store` class holding both tables.
- `routes.dfy` (`Routes`): the three handlers `upload_pdf`, `chat` and `end_chat` as methods that update a `Store`.

Everything the handlers get from outside is a parameter:

- the PDF parser's result, as a list of optional page texts, or `None` when the parser raises;
- the summarization service's status and `summary_text`;
- the tokenizer and detokenizer;
- the TF-IDF similarity of the question to chunk *i*, in a `Services` value;
- the question-answering service's reply per chunk;
- the fresh session id and message id, as preconditions that they are unused;
- the timestamp.

Behaviour of the code that is easy to misread:

- **Window count.** 413 to 512 tokens give two windows. The second one repeats the tail of the first (`Chunking.MidInputTwoWindows`). One window is produced only up to 412 tokens, not "up to the window size".
- **Ties in ranking.** The ranking is not a stable sort: numpy's default `argsort` does not fix the order of ties. `Ranking` proves its properties for every sorting permutation (`IsArgsort`). The chat flow uses one such permutation, built by insertion.
- **Missing summary field.** A 200 reply without `summary_text` also gives the fallback summary, not only a non-success reply.
- **Service exceptions.** Only non-200 replies are absorbed as replies. An exception from the summarization call (pdf.py:59) happens inside the upload handler's `try` and ends in its catch-all 500 branch (pdf.py:75-76), with nothing stored. An exception from the question-answering call (pdf.py:163, reached from `chat` at pdf.py:138) is not caught at all.

## Model

| member | source | states |
|---|---|---|
| `Text.IsSpace` | backend/app/routes/pdf.py:89 | the characters Python's `str.isspace()` accepts: U+0009–U+000D, U+001C–U+0020, U+0085, U+00A0, U+1680, U+2000–U+200A, U+2028, U+2029, U+202F, U+205F, U+3000 |
| `Extract.PageContribution` | backend/app/routes/pdf.py:85-86 | what one page adds: its text and a newline when the text is present and non-empty (truthy), otherwise nothing |
| `Ranking.IsArgsort` | backend/app/routes/pdf.py:118 | what `numpy.argsort` may return: every index exactly once, by non-decreasing score, ties in any order |
| `Ranking.Similarities` | backend/app/routes/pdf.py:115-117 | the flattened similarity of the question to each chunk, in chunk order; each score may depend on all chunks, since the vectorizer is fitted on all of them |
| `Answering.Succeeded` | backend/app/routes/pdf.py:165 | a reply counts only when its status code is 200 |
| `Ranking.TopSelection` | backend/app/routes/pdf.py:118-120 | what a top-`top_n` selection must be: distinct indices, by non-increasing score, with no index left out scoring above one taken |
| `Text.Strip` | backend/app/routes/pdf.py:89 | the definition of `str.strip()`: drop the leading whitespace, then the trailing whitespace of the rest; its properties are the `Strip*` lemmas |
| `Extract.HasPdfSignature` | backend/app/routes/pdf.py:50 | the definition of `startswith(b'%PDF')`: at least four bytes, the first four 0x25 0x50 0x44 0x46 |
| `Extract.Joined` | backend/app/routes/pdf.py:80-86 | the definition of the accumulated text: `page_text + "\n"` for each page whose text is present and non-empty, in page order; its property is `JoinedAllSpace` |
| `Chunking.Window` | backend/app/routes/pdf.py:107 | the definition of `tokens[i:i + chunk_size]` at `i = k*412`, clipped at the end as Python clips; its properties are `WindowShape`, `Coverage` and `ConsecutiveOverlap` |
| `Ranking.TopIndices` | backend/app/routes/pdf.py:118 | the definition of `order[-top_n:][::-1]` with Python's slice-start rules; its properties are `TopIndicesSpec`, `TopOneIsMaximal` and `TopZeroKeepsAll` |
| `Answering.ScoreOf` | backend/app/routes/pdf.py:167 | the definition of `answer_data.get("score", 0)`: the reply's score, 0 when missing |
| `Answering.AnswerOf` | backend/app/routes/pdf.py:170 | the definition of `answer_data.get("answer", "I couldn't find an answer.")` |
| `Database.WithoutSession` | backend/app/routes/pdf.py:180 | the definition of the bulk delete: the messages whose session id differs, in order; its properties are the `WithoutSession*` lemmas |
| `Database.Consistent` | backend/app/database.py:25-38 | the store invariant: each session stored under its own primary key with non-empty text, every message's session id a stored session (the foreign key), message ids unique (the primary key) |
| `Text.LeadingSpaces` | backend/app/routes/pdf.py:89 | the count of leading whitespace: those characters are all whitespace and the next one is not |
| `Text.TrailingSpaces` | backend/app/routes/pdf.py:89 | the count of trailing whitespace: those characters are all whitespace and the one before them is not |
| `Text.StripIsInfix` | backend/app/routes/pdf.py:89 | `strip()` returns a contiguous piece of its input, with only whitespace cut away on each side |
| `Text.StripEmpty` | backend/app/routes/pdf.py:55 | `strip()` is empty exactly when the input is all whitespace |
| `Text.StripEdges` | backend/app/routes/pdf.py:89 | a non-empty `strip()` result neither starts nor ends with whitespace |
| `Text.StripIdempotent` | backend/app/routes/pdf.py:55 | stripping twice equals stripping once, so the handler's second `strip()` on the extracted text changes nothing |
| `Extract.JoinedAllSpace` | backend/app/routes/pdf.py:80-86 | the accumulated page text is all whitespace exactly when every page is missing, empty or whitespace |
| `Extract.ExtractedText` | backend/app/routes/pdf.py:80-89 | the extracted text is empty exactly when every page is blank; otherwise it has no leading or trailing whitespace |
| `Extract.ExtractText` | backend/app/routes/pdf.py:78-89 | a parser failure gives the 400 "Error processing PDF" error; otherwise the loop's result is the stripped concatenation of `text + "\n"` over the pages with non-empty text |
| `Extract.GetSummary` | backend/app/routes/pdf.py:97-99 | a 200 reply carrying `summary_text` gives exactly that text; a non-200 reply or a missing field gives "Summary not available."; it is never an error |
| `Chunking.WindowCount` | backend/app/routes/pdf.py:106 | the number of chunks is the least count whose starts at multiples of 412 reach the token count (the ceiling of n/412); it is zero exactly for no tokens |
| `Chunking.SplitTextIntoChunks` | backend/app/routes/pdf.py:101-110 | the loop yields ceil(n/412) chunks, and chunk *k* is the detokenized `tokens[k*412 : min(k*412+512, n)]` |
| `Chunking.WindowShape` | backend/app/routes/pdf.py:106-107 | each chunk starts inside the tokens, is non-empty and at most 512 long, and is exactly 512 long unless it reaches the end |
| `Chunking.Coverage` | backend/app/routes/pdf.py:106-107 | every token index *j* lies in chunk j/412, at position j mod 412 |
| `Chunking.ConsecutiveOverlap` | backend/app/routes/pdf.py:106-107 | consecutive chunks share min(100, length of the later chunk) tokens: the first chunk's tokens past offset 412 begin the next chunk |
| `Chunking.ShortInputOneWindow` | backend/app/routes/pdf.py:106-107 | 1 to 412 tokens give exactly one chunk, holding all the tokens |
| `Chunking.MidInputTwoWindows` | backend/app/routes/pdf.py:106-107 | 413 to 512 tokens give two chunks: the whole list, then its tail from offset 412 |
| `Ranking.Insert` | backend/app/routes/pdf.py:118 | insertion adds exactly the one index to the list of indices |
| `Ranking.InsertAscending` | backend/app/routes/pdf.py:118 | insertion keeps the index list in non-decreasing score order |
| `Ranking.InsertDistinct` | backend/app/routes/pdf.py:118 | inserting a new index keeps the indices distinct |
| `Ranking.ArgsortPrefix` | backend/app/routes/pdf.py:118 | indices 0..k-1, each once, in non-decreasing score order |
| `Ranking.Argsort` | backend/app/routes/pdf.py:118 | the order is a valid argsort: every index once, by non-decreasing score |
| `Ranking.SliceStart` | backend/app/routes/pdf.py:118 | Python's normalised start index of `a[start:]` lies within the sequence |
| `Ranking.TopIndicesSpec` | backend/app/routes/pdf.py:118-120 | for any valid argsort and top_n >= 1: min(top_n, n) distinct indices, by non-increasing score, and no index left out scores above one taken |
| `Ranking.TopOneIsMaximal` | backend/app/routes/pdf.py:112-120 | with top_n = 1 and at least one chunk, exactly one index is chosen and its score is maximal |
| `Ranking.TopZeroKeepsAll` | backend/app/routes/pdf.py:118 | with top_n = 0 the slice `[-0:]` keeps every index exactly once, by non-increasing score |
| `Ranking.GetMostRelevantChunk` | backend/app/routes/pdf.py:112-120 | for top_n >= 1: min(top_n, number of chunks) chunks, taken from distinct chunk indices in non-increasing score order, and no chunk left out scores above one returned; with top_n = 1 the chunk returned has a maximal similarity score |
| `Answering.Fold` | backend/app/routes/pdf.py:158-170 | the best score is never negative; with no answer kept it is still 0; otherwise it is the kept reply's score |
| `Answering.FoldFindsWinner` | backend/app/routes/pdf.py:158-170 | no answer is kept exactly when no 200 reply has a positive score; otherwise the kept reply is the first 200 reply of maximal positive score (a later equal score does not replace it; a missing score counts as 0) |
| `Answering.WinnerUnique` | backend/app/routes/pdf.py:168 | at most one reply is the first of maximal positive score |
| `Answering.FoldIndexIsWinner` | backend/app/routes/pdf.py:158-170 | the loop keeps reply *k* exactly when *k* is that winner |
| `Answering.FoldByWinner` | backend/app/routes/pdf.py:158-170 | the loop's outcome stated through the winner alone |
| `Answering.SelectAnswer` | backend/app/routes/pdf.py:172 | "No relevant information found." when no 200 reply scores above 0, or when the winner's answer is the empty string; otherwise the winner's answer, with "I couldn't find an answer." when the field is missing; never empty |
| `Answering.Responses` | backend/app/routes/pdf.py:161-163 | as many service replies as chunks, one call per chunk |
| `Answering.GetAnswer` | backend/app/routes/pdf.py:153-172 | the loop over the chunks returns exactly the selected answer for the service's replies |
| `Database.WithoutSessionMembers` | backend/app/routes/pdf.py:180 | deleting a session's messages keeps exactly the messages of other sessions, and never adds any |
| `Database.WithoutSessionKeepsOthers` | backend/app/database.py:31 | after the delete, the ended session has no messages, and every other session keeps its messages, in the same order |
| `Database.WithoutSessionUniqueIds` | backend/app/database.py:37 | deleting messages keeps message ids unique |
| `Database.ConsistentAfterInsert` | backend/app/database.py:25 | a new session under an unused id, with non-empty text, keeps the store invariant and adds exactly that id |
| `Database.ConsistentAfterAppend` | backend/app/database.py:37-38 | a message with a fresh id for a stored session keeps the store invariant |
| `Database.ConsistentAfterDelete` | backend/app/database.py:31-38 | removing a session together with its messages keeps the store invariant: no message is left referring to the removed session |
| `Database.Store.constructor` | backend/app/database.py:22-44 | an empty store satisfies the invariant |
| `Routes.CheckUpload` | backend/app/routes/pdf.py:50-56 | the text accepted for storage is never empty |
| `Routes.CheckUploadOutcomes` | backend/app/routes/pdf.py:50-56 | upload is accepted exactly for a `%PDF`-signed file that parses and has a non-blank page. The failures come in source order, each with its own 400 error: invalid signature, then the parser raising, then no readable text. The accepted text is the extracted text and is already stripped |
| `Routes.ValidateUpload` | backend/app/routes/pdf.py:50-56 | the handler's validation steps give exactly the outcome of `CheckUpload` |
| `Routes.UploadPdf` | backend/app/routes/pdf.py:41-71 | on a failed check the reply is that error and nothing is stored. Otherwise exactly one session is added under the new id, with the file name, the text and the summary. A failed summary call never prevents it. Messages are unchanged and the invariant holds |
| `Routes.ChunkTexts` | backend/app/routes/pdf.py:132 | the chat flow's chunks are ceil(n/412) in number |
| `Routes.ChatResponse` | backend/app/routes/pdf.py:132-138 | the chat flow's answer (chunk, keep the top chunk, ask the service about it) is never empty |
| `Routes.Chat` | backend/app/routes/pdf.py:122-151 | an unknown session id gives "Invalid session ID." and stores nothing. A known id appends exactly one message with that id, the question, the answer and the timestamp. Sessions are unchanged and the invariant holds |
| `Routes.EndChat` | backend/app/routes/pdf.py:174-184 | an unknown id is refused and nothing changes. Otherwise that session is removed together with all of its messages, and the other sessions and messages are unchanged |
| `Routes.OneChunkAnswer` | backend/app/routes/pdf.py:132-172 | a short text whose single chunk the service answers with "blue" at score 0.91 gets the answer "blue" |
| `Routes.EndThenAsk` | backend/app/routes/pdf.py:127-129 | after a session is ended, a question about it is refused; exactly that session is gone, the others are unchanged, and no message refers to it |

## Left out

- The HTTP envelope is not modelled. The upload handler returns `{"error": detail}` itself, while `chat` and `end_chat` raise, so the framework's `{"detail": ...}` body is used; the model keeps only the status and the detail text.
- The catch-all 500 branch of the upload handler (backend/app/routes/pdf.py:75-76) is not modelled. It would catch any other library exception: a summary reply that is not a list, a `None` file name or summary rejected by the NOT NULL columns, a failed commit.
- Exceptions raised by the summarization or question-answering HTTP calls are not modelled; the model treats each call as returning a reply. For the summarization call the exception would fall into the catch-all 500 branch above. The question-answering call's exception is not caught by any handler and ends the request with a server error.
- JSON values of the wrong type are not modelled. A reply field is either present with the expected type or missing; a `null` or non-numeric score or answer is outside the model.
- `Routes.Chat` on a text that tokenizes to nothing: the model ranks no chunks and answers "No relevant information found.". scikit-learn may raise on an empty set of chunks or an empty vocabulary, and that error is not modelled.
- PDF parsing, tokenization, detokenization, TF-IDF fitting and cosine similarity are foreign library code. They enter as the parameters listed above, and the floating-point scores are abstract reals.
- `Routes.Chat` uses one particular argsort for ties (insertion order). numpy may order equal scores differently. The ranking lemmas hold for every valid argsort, but the exact chunk chosen among equal scores is not captured.
- `Chunking.SplitTextIntoChunks` is modelled only for the default window 512 and overlap 100, the values the only call site uses.
- The `top_n` of `get_most_relevant_chunk` is modelled for every integer (the `[-top_n:]` slice); the chat handler always passes 1.
- The database engine, sessions, transactions and commits (`get_db`, `SessionLocal`) are not modelled. Each handler's store update is one atomic step on the `Store`.
- `uuid4()` and `datetime.utcnow()` are not modelled. Ids are fresh by precondition, and the timestamp is a parameter.
- Asynchronous request handling and concurrent requests are not modelled.
- The front end (`frontend/src/App.js`) and the application wiring (`backend/app/main.py`) are not part of this model.
- The required (`nullable=False`) columns hold in the model by construction, since a Dafny string cannot be null.

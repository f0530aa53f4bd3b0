/** The HTTP-level outcomes of the three handlers: status codes, the fixed
    error details and the fixed success messages. */
module Http {

  /** An `HTTPException(status_code, detail)` as the handlers raise or return it. */
  datatype HttpError = HttpError(status: int, detail: string)

  const InvalidPdf := HttpError(400, "Invalid PDF file. Please upload a valid PDF.")
  const ProcessingError := HttpError(400, "Error processing PDF. Please upload a valid file.")
  const NoReadableText := HttpError(400, "Uploaded PDF contains no readable text.")
  const InvalidSession := HttpError(400, "Invalid session ID.")

  const UploadedMessage := "PDF uploaded successfully"
  const EndedMessage := "Chat session ended successfully."

  /** Reply of `POST /upload`: the message, the new session id and its summary, or an error. */
  datatype UploadReply = Uploaded(message: string, sessionId: string, summary: string) | UploadRejected(error: HttpError)

  /** Reply of `POST /chat/`: the answer text, or an error. */
  datatype ChatReply = Answered(response: string) | ChatRejected(error: HttpError)

  /** Reply of `DELETE /chat/end/{session_id}`: a confirmation, or an error. */
  datatype EndReply = Ended(message: string) | EndRejected(error: HttpError)
}

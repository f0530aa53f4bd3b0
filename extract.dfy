/** Ingest-time text handling: the PDF signature test, `extract_text`, and the
    mapping of the summarization service's reply (`get_summary`). The PDF parser
    and the summarization service are external: their results are inputs. */
module Extract {
  import opened Prelude
  import opened Text
  import opened Http

  newtype byte = x: int | 0 <= x < 256

  /** `file_bytes.startswith(b'%PDF')`. */
  predicate HasPdfSignature(b: seq<byte>) {
    |b| >= 4 && b[0] == 0x25 && b[1] == 0x50 && b[2] == 0x44 && b[3] == 0x46
  }

  /** What the parser reports page by page: `page.extract_text()` may give no text. */
  type Pages = seq<Option<string>>

  /** What one page adds to the accumulated text: its text and a newline, when
      the text is truthy in Python's sense (present and non-empty). */
  function PageContribution(p: Option<string>): string {
    if p.Some? && p.value != "" then p.value + "\n" else ""
  }

  /** A page that adds nothing but whitespace. */
  predicate BlankPage(p: Option<string>) {
    p.None? || AllSpace(p.value)
  }

  /** The text accumulated over the pages, in page order, before stripping. */
  function Joined(pages: Pages): string {
    if pages == [] then "" else Joined(pages[..|pages| - 1]) + PageContribution(pages[|pages| - 1])
  }

  /** The joined text is all whitespace exactly when every page is blank. */
  lemma {:induction false} JoinedAllSpace(pages: Pages)
    ensures AllSpace(Joined(pages)) <==> forall k :: 0 <= k < |pages| ==> BlankPage(pages[k])
  {
    if pages != [] {
      var init, last := pages[..|pages| - 1], pages[|pages| - 1];
      JoinedAllSpace(init);
      AllSpaceConcat(Joined(init), PageContribution(last));
      if last.Some? && last.value != "" {
        AllSpaceConcat(last.value, "\n");
      }
      assert forall k :: 0 <= k < |init| ==> init[k] == pages[k];
    }
  }

  /** The text `extract_text` returns for the parsed pages: empty exactly when
      every page is blank, and otherwise free of leading and trailing whitespace. */
  function ExtractedText(pages: Pages): (r: string)
    ensures r == [] <==> forall k :: 0 <= k < |pages| ==> BlankPage(pages[k])
    ensures r != [] ==> !IsSpace(r[0]) && !IsSpace(r[|r| - 1])
  {
    JoinedAllSpace(pages);
    StripEmpty(Joined(pages));
    StripEdges(Joined(pages));
    Strip(Joined(pages))
  }

  /** `extract_text(pdf_bytes)`, given what the parser produced for those bytes:
      `None` stands for the parser raising, which becomes the 400 error. */
  method ExtractText(parsed: Option<Pages>) returns (r: Result<string, HttpError>)
    ensures parsed.None? ==> r == Failure(ProcessingError)
    ensures parsed.Some? ==> r == Success(ExtractedText(parsed.value))
  {
    if parsed.None? {
      return Failure(ProcessingError);
    }
    var pages := parsed.value;
    var text := "";
    for i := 0 to |pages|
      invariant text == Joined(pages[..i])
    {
      var pageText := pages[i];
      if pageText.Some? && pageText.value != "" {
        text := text + pageText.value + "\n";
      }
      assert pages[..i + 1][..i] == pages[..i];
    }
    assert pages[..|pages|] == pages;
    return Success(Strip(text));
  }

  /** The summarization service's reply: its status code and, for a 200, the
      `summary_text` field of the first element of its JSON body. */
  datatype SummaryResponse = SummaryResponse(status: int, summaryText: Option<string>)

  const SummaryFallback := "Summary not available."

  /** `get_summary`: the service's summary, or the fallback; a failed call never
      becomes an error. */
  function GetSummary(resp: SummaryResponse): (s: string)
    ensures resp.status == 200 && resp.summaryText.Some? ==> s == resp.summaryText.value
    ensures resp.status != 200 || resp.summaryText.None? ==> s == SummaryFallback
  {
    if resp.status == 200 then resp.summaryText.GetOr(SummaryFallback) else SummaryFallback
  }
}

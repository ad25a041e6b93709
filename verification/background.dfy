/**
 * The background script's saving logic: `saveTextToFile` turns the text and
 * the chosen format into downloads (or a rejection), the PDF route asks the
 * content script of the tab for a document and falls back to a plain text
 * file whenever that fails, and the content script's reply is classified
 * into a payload or an error.
 *
 * Chrome's messaging, injection and download calls are not run: their
 * outcomes are inputs, and the content script is a function from the text
 * it is sent to the response that comes back.
 */
module Background {
  import opened Wrappers
  import opened JsStrings
  import opened Messages

  /** The ceiling of the text the background script sends or saves as a fallback. */
  const MAX_LENGTH: nat := 2000

  const NO_TEXT: JsString := Js("No text provided")
  const UNSUPPORTED_FORMAT: JsString := Js("Unsupported format: ")
  const CONTENT_SCRIPT_ERROR: JsString := Js("Content script error: ")
  const NO_RESPONSE: JsString := Js("No response from content script")
  const UNKNOWN_ERROR: JsString := Js("Unknown error generating PDF")
  const INJECTION_FAILED: JsString := Js("Failed to inject content script: ")

  const FORMAT_PDF: JsString := Js("pdf")
  const FORMAT_TXT: JsString := Js("txt")
  const FORMAT_MARKDOWN: JsString := Js("markdown")

  const TXT_FILE: JsString := Js("clipped_text.txt")
  const MARKDOWN_FILE: JsString := Js("clipped_text.md")
  const HTML_FILE: JsString := Js("clipped_text.html")
  const PDF_FILE: JsString := Js("clipped_text.pdf")

  const TEXT_PLAIN: JsString := Js("text/plain;charset=utf-8")
  const TEXT_MARKDOWN: JsString := Js("text/markdown;charset=utf-8")
  const HTML_URI_PREFIX: JsString := Js("data:text/html")

  /** A tab as `chrome.tabs.query` reports it; only its id is read. */
  datatype Tab = Tab(id: Option<int>)

  /** `tab && tab.id`: a tab with an id other than 0. */
  predicate UsableTab(tab: Option<Tab>) {
    tab.Some? && tab.value.id.Some? && tab.value.id.value != 0
  }

  /** What a download is made from: a data URI as it is, or a blob that is read into one. */
  datatype Source = DataUri(uri: JsString) | TextBlob(content: JsString, mimeType: JsString)

  /** One `chrome.downloads.download` call (always with `saveAs: true`). */
  datatype Download = Download(source: Source, filename: JsString)

  /** What `saveTextToFile` does: reject at once, or attempt downloads; its promise settles as the last one does. */
  datatype SavePlan = Rejected(error: JsString) | Downloads(attempts: seq<Download>)

  // ---------------------------------------------------------------------------
  // Plain text
  // ---------------------------------------------------------------------------

  /** The text sent to the content script and saved by the fallback: cut at 2000 code units with the long notice. */
  function BackgroundText(text: JsString): (r: JsString)
    ensures |text| <= MAX_LENGTH ==> r == text
    ensures |text| > MAX_LENGTH ==> |r| == MAX_LENGTH + |LONG_MARKER| && r[..MAX_LENGTH] == text[..MAX_LENGTH] && r[MAX_LENGTH..] == LONG_MARKER
  {
    Truncate(text, MAX_LENGTH, LONG_MARKER)
  }

  /** `generatePlainTextFile`: the text, cut when longer than 2000 code units, as `clipped_text.txt`. */
  function PlainTextFile(text: JsString): (d: Download)
    ensures d.filename == TXT_FILE && d.source.TextBlob? && d.source.mimeType == TEXT_PLAIN
    ensures d.source.content == BackgroundText(text)
  {
    Download(TextBlob(BackgroundText(text), TEXT_PLAIN), TXT_FILE)
  }

  // ---------------------------------------------------------------------------
  // The PDF route
  // ---------------------------------------------------------------------------

  /** Whether the `ping` message reached a content script, or `chrome.runtime.lastError` was set. */
  datatype PingResult = PingAnswered | PingFailed

  /** How `chrome.scripting.executeScript` for content.js settles; `message` is the error's message. */
  datatype InjectResult = Injected | InjectFailed(message: JsString)

  /** What the callback of `chrome.tabs.sendMessage` sees. */
  datatype ChromeResponse = LastError(message: JsString) | NoResponse | Responded(reply: Reply)

  /** `response.error || "Unknown error generating PDF"`. */
  function FailureText(reply: Reply): JsString {
    if reply.GenerationReply? && reply.error.Some? && reply.error.value != [] then reply.error.value else UNKNOWN_ERROR
  }

  /** The callback of `generatePDFWithContentScript`: the promise resolves with `pdfData` or rejects with a message. */
  function ClassifyResponse(response: ChromeResponse): Result<Option<JsString>, JsString> {
    match response
    case LastError(message) => Err(CONTENT_SCRIPT_ERROR + message)
    case NoResponse => Err(NO_RESPONSE)
    case Responded(reply) =>
      if !Succeeded(reply) then Err(FailureText(reply)) else Ok(reply.pdfData)
  }

  /**
   * Only a successful reply resolves, with its `pdfData` whether or not it is
   * marked as HTML; a failed reply rejects with its own error when it has one.
   */
  lemma ClassifyResponseCases(response: ChromeResponse)
    ensures ClassifyResponse(response).Ok? <==> response.Responded? && Succeeded(response.reply)
    ensures ClassifyResponse(response).Ok? ==> ClassifyResponse(response).value == response.reply.pdfData
    ensures response.LastError? ==> ClassifyResponse(response) == Err(CONTENT_SCRIPT_ERROR + response.message)
    ensures response.NoResponse? ==> ClassifyResponse(response) == Err(NO_RESPONSE)
    ensures response.Responded? && response.reply.GenerationReply? && !response.reply.success ==>
      ClassifyResponse(response) == Err(
        if response.reply.error.Some? && response.reply.error.value != [] then response.reply.error.value else UNKNOWN_ERROR)
  {
  }

  /** The HTML page and the jsPDF document resolve alike. */
  lemma HtmlAndPdfRepliesResolveAlike(pdfData: JsString)
    ensures ClassifyResponse(Responded(HtmlReply(pdfData))) == Ok(Some(pdfData))
    ensures ClassifyResponse(Responded(PdfReply(pdfData))) == Ok(Some(pdfData))
  {
  }

  /**
   * `handlePDFGeneration`: a tab that answers the ping is asked at once; one
   * that does not gets content.js injected first, and a failed injection
   * rejects without asking. `respond` is the content script's answer to the
   * text it is sent.
   */
  function HandlePdfGeneration(text: JsString, ping: PingResult, inject: InjectResult, respond: JsString -> ChromeResponse)
    : Result<Option<JsString>, JsString>
  {
    if ping == PingAnswered then ClassifyResponse(respond(BackgroundText(text)))
    else match inject
      case Injected => ClassifyResponse(respond(BackgroundText(text)))
      case InjectFailed(message) => Err(INJECTION_FAILED + message)
  }

  /**
   * The content script sees the text cut at 2000 code units; its answer
   * decides unless the tab needed an injection that failed.
   */
  lemma HandlePdfGenerationCases(text: JsString, ping: PingResult, inject: InjectResult, respond: JsString -> ChromeResponse)
    ensures ping == PingAnswered || inject == Injected ==>
      HandlePdfGeneration(text, ping, inject, respond) == ClassifyResponse(respond(BackgroundText(text)))
    ensures ping == PingFailed && inject.InjectFailed? ==>
      HandlePdfGeneration(text, ping, inject, respond) == Err(INJECTION_FAILED + inject.message)
  {
  }

  /** `pdfData.startsWith('data:text/html')` picks the file name: `.html` exactly for an HTML data URI, `.pdf` otherwise. */
  function DocumentDownload(pdfData: JsString): (d: Download)
    ensures d.source == DataUri(pdfData)
    ensures d.filename == HTML_FILE <==> HTML_URI_PREFIX <= pdfData
    ensures d.filename == PDF_FILE <==> !(HTML_URI_PREFIX <= pdfData)
  {
    assert HTML_FILE[|HTML_FILE| - 1] != PDF_FILE[|PDF_FILE| - 1];
    Download(DataUri(pdfData), if HTML_URI_PREFIX <= pdfData then HTML_FILE else PDF_FILE)
  }

  /** What the PDF route of `saveTextToFile` downloads; `documentSaved` is whether the document's download succeeds. */
  function PdfRoute(text: JsString, tab: Option<Tab>, ping: PingResult, inject: InjectResult,
                    respond: JsString -> ChromeResponse, documentSaved: bool): seq<Download>
  {
    if !UsableTab(tab) then [PlainTextFile(text)]
    else match HandlePdfGeneration(text, ping, inject, respond)
      case Ok(Some(pdfData)) =>
        if documentSaved then [DocumentDownload(pdfData)] else [DocumentDownload(pdfData), PlainTextFile(text)]
      case Ok(None) => [PlainTextFile(text)]   // `pdfData.startsWith` throws on undefined
      case Err(_) => [PlainTextFile(text)]
  }

  /** `saveTextToFile(text, format, tab)`. */
  function SaveTextToFile(text: JsString, format: JsString, tab: Option<Tab>, ping: PingResult, inject: InjectResult,
                          respond: JsString -> ChromeResponse, documentSaved: bool): SavePlan
  {
    if text == [] then Rejected(NO_TEXT)
    else if format == FORMAT_PDF then Downloads(PdfRoute(text, tab, ping, inject, respond, documentSaved))
    else if format == FORMAT_TXT then Downloads([Download(TextBlob(text, TEXT_PLAIN), TXT_FILE)])
    else if format == FORMAT_MARKDOWN then Downloads([Download(TextBlob(text, TEXT_MARKDOWN), MARKDOWN_FILE)])
    else Rejected(UNSUPPORTED_FORMAT + format)
  }

  // ---------------------------------------------------------------------------
  // What saving promises
  // ---------------------------------------------------------------------------

  /**
   * Empty text is rejected whatever the format; `txt` and `markdown` save the
   * whole text under their own name and type; `pdf` takes the PDF route; any
   * other format is rejected with its name in the message.
   */
  lemma SaveTextToFileFormats(text: JsString, format: JsString, tab: Option<Tab>, ping: PingResult, inject: InjectResult,
                              respond: JsString -> ChromeResponse, documentSaved: bool)
    ensures text == [] ==> SaveTextToFile(text, format, tab, ping, inject, respond, documentSaved) == Rejected(NO_TEXT)
    ensures text != [] && format == FORMAT_TXT ==>
      SaveTextToFile(text, format, tab, ping, inject, respond, documentSaved) == Downloads([Download(TextBlob(text, TEXT_PLAIN), TXT_FILE)])
    ensures text != [] && format == FORMAT_MARKDOWN ==>
      SaveTextToFile(text, format, tab, ping, inject, respond, documentSaved) == Downloads([Download(TextBlob(text, TEXT_MARKDOWN), MARKDOWN_FILE)])
    ensures text != [] && format != FORMAT_PDF && format != FORMAT_TXT && format != FORMAT_MARKDOWN ==>
      SaveTextToFile(text, format, tab, ping, inject, respond, documentSaved) == Rejected(UNSUPPORTED_FORMAT + format)
    ensures text != [] && format == FORMAT_PDF ==>
      SaveTextToFile(text, format, tab, ping, inject, respond, documentSaved) == Downloads(PdfRoute(text, tab, ping, inject, respond, documentSaved))
  {
    assert FORMAT_TXT[0] != FORMAT_PDF[0] && FORMAT_MARKDOWN[0] != FORMAT_PDF[0];
  }

  /**
   * A PDF request with text is never rejected outright: it ends either with the
   * document saved, or with the plain text file as the last attempt. Without a
   * usable tab, and after any failure to get a document, the plain text file
   * is the only download.
   */
  lemma PdfRouteEndsInADownload(text: JsString, tab: Option<Tab>, ping: PingResult, inject: InjectResult,
                                respond: JsString -> ChromeResponse, documentSaved: bool)
    ensures var attempts := PdfRoute(text, tab, ping, inject, respond, documentSaved);
      && 1 <= |attempts| <= 2
      && (attempts[|attempts| - 1] == PlainTextFile(text) || (documentSaved && attempts[0].source.DataUri?))
    ensures !UsableTab(tab) ==> PdfRoute(text, tab, ping, inject, respond, documentSaved) == [PlainTextFile(text)]
    ensures UsableTab(tab) && !(HandlePdfGeneration(text, ping, inject, respond).Ok? && HandlePdfGeneration(text, ping, inject, respond).value.Some?) ==>
      PdfRoute(text, tab, ping, inject, respond, documentSaved) == [PlainTextFile(text)]
  {
  }
}

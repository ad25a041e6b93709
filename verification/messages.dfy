/**
 * What the scripts of the extension share: the replies the content script
 * hands to `sendResponse` and the background script reads back (only the
 * fields either side reads are modelled), and the notices appended to text
 * that is cut short.
 */
module Messages {
  import opened Wrappers
  import opened JsStrings

  /** The notice the page-side generators (jsPDF creator, HTML fallback) append to cut text. */
  const SHORT_MARKER: JsString := Js("\n\n[Nội dung đã bị cắt ngắn...]")

  /** The notice the background script appends to cut text ("cut short because of the size limit"). */
  const LONG_MARKER: JsString := Js("\n\n[Nội dung đã bị cắt ngắn do giới hạn dung lượng...]")

  datatype Reply =
    /** `{success, pdfData?, isHtml?, error?}`, the answer to a `generatePDF` message. */
    | GenerationReply(success: bool, pdfData: Option<JsString>, isHtml: bool, error: Option<JsString>)
    /** `{status}`, the answer to a `ping` message. */
    | StatusReply(status: JsString)

  /** `{success: true, pdfData}`: a document produced by jsPDF. */
  function PdfReply(pdfData: JsString): Reply {
    GenerationReply(true, Some(pdfData), false, None)
  }

  /** `{success: true, pdfData, isHtml: true}`: the HTML fallback document. */
  function HtmlReply(pdfData: JsString): Reply {
    GenerationReply(true, Some(pdfData), true, None)
  }

  /** `{success: false, error}`. */
  function FailureReply(error: JsString): Reply {
    GenerationReply(false, None, false, Some(error))
  }

  /** JavaScript truthiness of `response.success`; a status reply has no such field. */
  predicate Succeeded(r: Reply) {
    r.GenerationReply? && r.success
  }
}

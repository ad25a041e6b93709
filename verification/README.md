# ClipToFile PDF pipeline, modelled in Dafny

ClipToFile is a browser extension that saves selected or clipboard text as a
`.txt`, `.md` or PDF file. The PDF route crosses three contexts:

- **Background script.** It cuts the text, pings the tab's content script
  (injecting it when needed), sends `generatePDF`, classifies the reply and
  downloads the result. Any failure falls back to a plain text file.
- **Content script.** It makes sure the jsPDF library is loaded in the page,
  tries the page-side creator, and otherwise builds an HTML page as a
  `data:text/html` URI (`createSimplePDF`).
- **Page-world scripts.**
  - The loader (`jspdf-loader.js`) and the checker (`jspdf-checker.js`) find
    the library's constructor among the page's globals.
  - The creator (`jspdf-creator.js`) lays the text out over at most four A4
    pages.

This project models that core and proves what it promises.

- **Strings.** JavaScript strings are sequences of UTF-16 code units
  (`JsStrings.JsString`), because `length` and `substring` count code units.
- **The page's globals.** `PageGlobals.Window` is a class with the
  enumerable properties of `window` in `Object.keys` order and the global
  lexical bindings. The loader, the checker and the content script's
  fallback are methods that update it. The scan over pdf-named keys is one
  loop, `Window.ScanPdfKeys`.
- **The jsPDF document.** `JsPdfCreator.PdfDocument` is a class whose pages
  record the `doc.text` calls. The page loop `WritePages` is proved to
  produce `Layout`, and the lemmas about `Layout` state the pagination
  promises.
- **The HTML fallback and the background script's decisions.** These are
  pure functions. Chrome's ping, injection, messaging and download results,
  `encodeURIComponent`, and jsPDF's line wrapping and serialisation are
  inputs.
- **End to end.** `Pipeline` connects the scripts: the background's cut, the
  content script's reply, and what ends up downloaded.

Files:

| file | module | contents |
|---|---|---|
| `wrappers.dfy` | `Wrappers` | `Option`, `Result` |
| `js_strings.dfy` | `JsStrings` | code units, well-formedness (no lone surrogates), `includes`, `toLowerCase`, truncation, decimal numerals, global `replace` |
| `messages.dfy` | `Messages` | the `generatePDF`/`ping` replies and the two truncation notices |
| `simple_document.dfy` | `SimpleDocument` | `createSimplePDF`: escaping, the HTML template, the data URI |
| `page_globals.dfy` | `PageGlobals` | the `Window` class, property lookup and assignment, the pdf-key scan |
| `jspdf_creator.dfy` | `JsPdfCreator` | the `create-pdf` handler and the `PdfDocument` class |
| `jspdf_loader.dfy` | `JsPdfLoader` | the loader's start-up and `load-jspdf` handler |
| `jspdf_checker.dfy` | `JsPdfChecker` | the `check-jspdf-loaded` handler |
| `content_script.dfy` | `ContentScript` | `fallbackLoadJsPDF` discovery, `generatePDF`, `createPDF`, message branches |
| `background.dfy` | `Background` | `saveTextToFile`, `generatePlainTextFile`, `handlePDFGeneration`, reply classification |
| `pipeline.dfy` | `Pipeline` | properties of the scripts together |

## Behaviour a user might not expect

The model follows the code in each of these places.

- **Rejected first injection.** A user might expect any failure before
  rendering to end in the HTML fallback document. In the code, the
  content script's `generatePDF` message first calls `injectJsPDF()`. If
  that rejects, the script replies `{success: false, error}`
  (content.js:73-76). The background script then saves the plain text file
  `clipped_text.txt`, not the HTML page (background.js:150-153). See
  `Pipeline.FirstInjectionFailureSavesText`.
- **Fallback after a background failure.** Whatever fails on the background
  side, the fallback is `generatePlainTextFile`, never the HTML generator.
- **More than one download.** A PDF request can lead to two downloads. When
  the document's download fails, the code attempts a second download, the
  plain text file (`Background.PdfRoute`).
- **Page count.** At most four pages are emitted, but never more than the
  text needs: the code computes `actualPages = min(totalPages, 4)`, so a short
  text gets fewer pages than the maximum (`JsPdfCreator.PageCountBounds`).

## Model

| member | source | states |
|---|---|---|
| JsStrings.Truncate | content.js:361-365 | text no longer than `max` is returned unchanged; longer text becomes exactly its first `max` units followed by the marker; so the result keeps the first `min(n, max)` units and is at most `max + |marker|` long |
| JsStrings.TruncateTwice | content.js:363-364 | a text already cut at `max` with a non-empty notice is cut again at the same unit, so only the second notice survives |
| JsStrings.ToLowerCase | jspdf-loader.js:45-46 | `toLowerCase` keeps the length and lowers exactly the Basic Latin capitals |
| JsStrings.Decimal | jspdf-creator.js:99 | the numeral `${n}` is non-empty, all digits, one digit exactly for `n < 10`, and starts with `0` only for `n = 0` |
| JsStrings.DecimalValue | jspdf-creator.js:99 | the numeral of `n` denotes `n` |
| SimpleDocument.Escape | content.js:368 | the three global `replace` calls, `&` first; what they produce is stated by `EscapeIsFlat`, `UnescapeEscape` and `EscapeNoRawMarkup` |
| SimpleDocument.EscapeIsFlat | content.js:368 | the three chained passes replace each unit independently: `&`, `<`, `>` by their entities and every other unit by itself |
| SimpleDocument.UnescapeEscape | content.js:368 | decoding `&lt;`, `&gt;`, then `&amp;` recovers the escaped text exactly |
| SimpleDocument.EscapeNoRawMarkup | content.js:368 | the escaped text has no raw `<` or `>`, and every `&` in it starts `&amp;`, `&lt;` or `&gt;` |
| SimpleDocument.HtmlPageWellFormed | content.js:368 | the `<pre>` page built around well-formed text is well-formed, so `encodeURIComponent` accepts it |
| SimpleDocument.FlatEscapeWellFormedConverse | content.js:368 | escaping cannot pair up a lone surrogate: if the escaped text is well-formed, so was the text |
| SimpleDocument.HtmlPageWellFormedConverse | content.js:368 | the page is well-formed only if its text is, since the template's `>` and `<` cannot complete a pair |
| SimpleDocument.CreateSimplePdf | content.js:356-381 | as written: it succeeds exactly when the text cut by `substring(0, 2000)` plus the notice is well-formed, replying `{success: true, isHtml: true}` with the `data:text/html;charset=utf-8,` URI of the encoded page; otherwise it replies with the quota failure message |
| SimpleDocument.SplitPairBreaksFallback | content.js:363-380 | a well-formed text whose 2000th unit starts a surrogate pair makes the fallback as written fail |
| SimpleDocument.TruncateAtBoundary | content.js:363-365 | the cut moved one unit earlier when it would split a surrogate pair: text no longer than `max` is unchanged, otherwise its first `max` (or `max - 1`) units plus the notice; well-formed in, well-formed out |
| SimpleDocument.TruncateAtBoundaryAfterTruncate | content.js:363-364 | cutting at a boundary after an earlier plain cut at the same ceiling gives the same text as cutting the original |
| SimpleDocument.CreateSimplePdfAtBoundary | content.js:356-381 | the fallback with the boundary cut: it succeeds exactly when the boundary-cut text is well-formed, hence on every well-formed text, with an HTML data URI whose tail is the encoded page |
| SimpleDocument.SplitPairFixed | content.js:363-374 | the corrected fallback produces the page on the text that breaks the original |
| SimpleDocument.SimplePdf | content.js:356-381 | `createSimplePDF` under either cut: success exactly when the page's text is well-formed, the encoded page on success, the quota message otherwise; with the boundary cut every well-formed text succeeds |
| PageGlobals.Binding | jspdf-checker.js:12 | a bare identifier reads its global lexical binding first, which shadows the property of `window`; without one it reads the property; it is undefined exactly when it is neither |
| PageGlobals.AssignLookup | jspdf-loader.js:55 | after `window[key] = v`, `key` reads `v` and every other key reads as before |
| PageGlobals.AssignKeys | jspdf-loader.js:55 | assignment keeps `Object.keys` order and appends a key that was absent |
| PageGlobals.AssignDistinct | jspdf-loader.js:55 | assignment keeps the keys distinct |
| PageGlobals.PdfKeys | jspdf-loader.js:45-46 | the candidate keys are exactly the window's keys that pass the filter |
| PageGlobals.PdfKeyIsPdfNamed | jspdf-loader.js:45-46 | a key passes the filter if and only if its lowercase form contains "pdf": the "jspdf" disjunct adds nothing |
| PageGlobals.FirstCandidateIsFirst | jspdf-loader.js:52-58 | the scan returns the value of the first key, in order, that is a function whose source contains "jsPDF"; it returns nothing exactly when no key qualifies |
| PageGlobals.LookupAt | jspdf-loader.js:52 | with distinct keys, `window[key]` for a key of the window reads that property's own value |
| PageGlobals.ScanResultIsFirstHit | jspdf-loader.js:45-58 | over the window's properties in `Object.keys` order: the scan finds nothing exactly when no property has a pdf-named key holding a function that mentions "jsPDF", and otherwise returns the value of the first such property |
| PageGlobals.ScanResultIsCandidate | jspdf-loader.js:45-58 | a found value is a function mentioning "jsPDF" that sits under a key whose lowercase form contains "pdf" |
| PageGlobals.Window.Set | jspdf-loader.js:55 | `window[key] = v` replaces or appends the property and keeps the keys distinct |
| PageGlobals.Window.ScanPdfKeys | jspdf-loader.js:45-59 | the loop finds a value exactly when the scan specification does, then stores `{jsPDF: value}` as `window.jspdf` and stops; without a match the window is unchanged |
| JsPdfCreator.PdfDocument.constructor | jspdf-creator.js:26-33 | a new document has one blank page and jsPDF's initial font size |
| JsPdfCreator.PdfDocument.SetFontSize | jspdf-creator.js:43 | changes the font size and nothing else |
| JsPdfCreator.PdfDocument.AddPage | jspdf-creator.js:81 | appends a blank page, which becomes the current one |
| JsPdfCreator.PdfDocument.Text | jspdf-creator.js:90-94 | draws on the current page in the current font size; earlier pages are untouched |
| JsPdfCreator.A4LinesPerPage | jspdf-creator.js:67 | an A4 page holds `floor((297 - 40) / 5) = 51` lines |
| JsPdfCreator.CeilDivBounds | jspdf-creator.js:68 | `Math.ceil(n / d)` is the least block count holding `n`: zero exactly for `n = 0` |
| JsPdfCreator.PageCountBounds | jspdf-creator.js:67-72 | `actualPages` is at most 4 and zero exactly without lines; when the lines fit in 4 pages they need exactly `actualPages` pages; otherwise `actualPages` is 4 |
| JsPdfCreator.PageLines | jspdf-creator.js:85-87 | each emitted slice holds between 1 and `linesPerPage` lines |
| JsPdfCreator.Layout | jspdf-creator.js:72-103 | the pages the loop leaves; what they hold is stated by `LayoutPageCount`, `LayoutFill`, `LayoutBody`, `LayoutFooter` and `LayoutBodyFont` |
| JsPdfCreator.LayoutPageCount | jspdf-creator.js:72-82 | the document has 1 to 4 pages: `actualPages` when there are lines (so `actualPages - 1` added pages), and a single blank page without lines |
| JsPdfCreator.LayoutFill | jspdf-creator.js:79-87 | page `i` carries exactly lines `[i*lpp, min((i+1)*lpp, n))`; every page but the last is full |
| JsPdfCreator.LayoutBody | jspdf-creator.js:72-94 | the body text over all pages is exactly the first `min(n, 4 * linesPerPage)` lines, in order, each once; later lines are dropped |
| JsPdfCreator.LayoutFooter | jspdf-creator.js:97-101 | the footer `k/k` appears once, on the last page, in font size 7; with no lines there is neither text nor footer |
| JsPdfCreator.LayoutBodyFont | jspdf-creator.js:43-101 | every body run is drawn at the top margin in font size 9 |
| JsPdfCreator.WritePages | jspdf-creator.js:79-103 | the page loop leaves exactly the `Layout` pages in the document |
| JsPdfCreator.PdfText | jspdf-creator.js:56-61 | text of at most 2700 units is unchanged; longer text becomes its first 2700 units followed by the short notice |
| JsPdfCreator.PdfSize | jspdf-creator.js:114 | `Math.round(length / 1024)`: the size in KB is within half a kilobyte of the length |
| JsPdfCreator.CreatePdf | jspdf-creator.js:4-134 | no function under `window.jspdf.jsPDF` gives "jsPDF not available"; a library exception gives its message; otherwise the result is the serialised `Layout` document with its size |
| JsPdfLoader.Start | jspdf-loader.js:4-16 | a defined `window.jsPDF` becomes `window.jspdf = {jsPDF}`, an available status is sent, and no listener is registered; otherwise nothing changes and the loader listens |
| JsPdfLoader.ResolveHandle | jspdf-loader.js:33-72 | the window after resolution is `Resolved(...)`, and the status reports the availability flag and `window.jspdf` |
| JsPdfLoader.OnLoadJsPdf | jspdf-loader.js:19-96 | a loaded script leads to resolution; a load error gives `{available: false, error: "Failed to load jsPDF script"}`; an exception gives its text; failures leave the window unchanged |
| JsPdfLoader.Resolved | jspdf-loader.js:34-64 | the window after the loader's resolution; its order, frame and availability are stated by `ResolvedPrecedence`, `ResolvedFrame` and `ResolvedAvailable` |
| JsPdfLoader.ResolvedPrecedence | jspdf-loader.js:34-64 | order of resolution: `window.jsPDF`, then bare `jsPDF`, then an existing handle (kept), then the scan; the scan writes `window.jspdf` only on a match |
| JsPdfLoader.ResolvedFrame | jspdf-loader.js:34-64 | resolution writes no property but `window.jspdf` |
| JsPdfLoader.ResolvedAvailable | jspdf-loader.js:69 | the status says available exactly when one of the four routes supplies a handle |
| JsPdfLoader.AvailableWithoutConstructor | jspdf-loader.js:69 | a `window.jspdf.jsPDF` that is not a function is reported available |
| JsPdfChecker.CheckJsPdf | jspdf-checker.js:2-52 | the check's status and the window afterwards are `Found` and `Normalised` of the window before |
| JsPdfChecker.Found | jspdf-checker.js:5-27 | what the check reports, by its four routes in order; stated by `NamespaceReported` (routes 1 and 2), `ConstructorWrapped` (routes 3 and 4), `FoundIffBound` and `NormalisedHoldsFound` |
| JsPdfChecker.FoundIffBound | jspdf-checker.js:5-27 | `available` holds exactly when the name `jspdf` or `jsPDF` is bound, on `window` or lexically |
| JsPdfChecker.NormalisedHoldsFound | jspdf-checker.js:9-27 | what is reported is afterwards `window.jspdf`; a defined `window.jspdf` is returned and left alone; no other property changes |
| JsPdfChecker.NamespaceReported | jspdf-checker.js:9-16 | a defined `window.jspdf` is reported as it is; when it is undefined, a lexical `jspdf` is reported ahead of either `jsPDF` and stored unwrapped as `window.jspdf` |
| JsPdfChecker.ConstructorWrapped | jspdf-checker.js:17-27 | without a `jspdf` binding, a `jsPDF` binding is wrapped as `{jsPDF: ...}`, `window.jsPDF` first |
| ContentScript.DiscoverAfterFallback | content.js:207-240 | the window afterwards is `FallbackProps`, and the promise resolves exactly when one of the three routes finds a handle, else rejects with "Failed to find jsPDF after fallback loading" |
| ContentScript.FallbackLoad | content.js:193-259 | a loaded script leads to discovery; a load error rejects with "Failed to load jsPDF script via fallback"; an exception rejects with "Failed to find jsPDF after loading" |
| ContentScript.FallbackPrecedence | content.js:209-239 | order: `window.jsPDF`, then a function under `window.jspdf.jsPDF` (kept), then the scan, which writes `window.jspdf` only on a match; no other property changes |
| ContentScript.FallbackLeavesConstructor | content.js:209-215 | after a successful discovery, `window.jspdf.jsPDF` is a function exactly unless it came from a `window.jsPDF` that is not one |
| ContentScript.ChooseGenerator | content.js:263-295 | the route `generatePDF` takes; stated by `CreatorNeedsConstructor` |
| ContentScript.CreatorNeedsConstructor | content.js:263-295 | `generatePDF` uses the creator exactly when a function handle is in place, before or after its own injection; otherwise the HTML fallback |
| ContentScript.CreatePdfReply | content.js:309-338 | a successful `pdf-created` event is replied as `{success: true, pdfData}`; a failed one or a creator script error falls back to the HTML page, made with the given cut |
| ContentScript.GeneratePdf | content.js:263-295 | the reply `generatePDF` sends, with the fallback making the given cut; stated by `GeneratePdfAnswers` |
| ContentScript.GeneratePdfAnswers | content.js:263-295 | `generatePDF` always replies; it succeeds whenever the fallback page's text is well-formed, and, when no function handle is in place, exactly then; as written that text is the `substring(0, 2000)` cut, with the boundary cut every well-formed text succeeds; a success carries a document; an HTML reply is a `data:text/html` URI; a failure carries the quota message |
| ContentScript.HandleMessage | content.js:67-84 | the `generatePDF` and `ping` branches of the listener; stated by `MessageReplies` |
| ContentScript.MessageReplies | content.js:67-84 | a rejected first injection is answered `{success: false, error}` with no fallback; otherwise by `generatePDF`; `ping` is answered `{status: "ok"}`; other actions get no reply here |
| Background.BackgroundText | background.js:335-339 | text of at most 2000 units is sent unchanged; longer text becomes its first 2000 units followed by the long notice |
| Background.PlainTextFile | background.js:186-210 | the fallback saves the text, cut like that, as `text/plain` `clipped_text.txt` |
| Background.ClassifyResponse | background.js:346-374 | the `sendMessage` callback's decision on the content script's answer; stated by `ClassifyResponseCases` and `HtmlAndPdfRepliesResolveAlike` |
| Background.ClassifyResponseCases | background.js:346-374 | only a successful reply resolves, with its `pdfData`; lastError, no reply and a failed reply reject with their own messages, a failed reply with its error or "Unknown error generating PDF" |
| Background.HtmlAndPdfRepliesResolveAlike | background.js:365-374 | an HTML reply and a PDF reply both resolve with their `pdfData` |
| Background.HandlePdfGeneration | background.js:302-331 | `handlePDFGeneration`: ping, inject when needed, then ask; stated by `HandlePdfGenerationCases` |
| Background.HandlePdfGenerationCases | background.js:302-331 | a tab answering the ping, or one that accepts the injection, is asked with the cut text; a failed injection rejects with "Failed to inject content script: " and its message |
| Background.DocumentDownload | background.js:133-137 | the document is downloaded from its data URI, named `clipped_text.html` exactly when the payload starts with `data:text/html` and `clipped_text.pdf` exactly otherwise |
| Background.PdfRoute | background.js:123-158 | the downloads the PDF route attempts; stated by `PdfRouteEndsInADownload` |
| Background.SaveTextToFile | background.js:116-173 | `saveTextToFile`; stated by `SaveTextToFileFormats` |
| Background.SaveTextToFileFormats | background.js:116-173 | empty text is rejected with "No text provided" for every format; `txt` and `markdown` save the whole text as `clipped_text.txt` / `clipped_text.md` with their MIME types; `pdf` takes the PDF route; other formats are rejected with "Unsupported format: " and the format |
| Background.PdfRouteEndsInADownload | background.js:123-158 | a PDF request is never rejected outright: it saves the document, or ends with the plain text file; without a usable tab or a document, the plain text file is the only download |
| Pipeline.CreatorKeepsBackgroundText | jspdf-creator.js:56-61 | the creator's 2700-unit cut never applies to text the background script sends |
| Pipeline.FallbackRecutsBackgroundText | content.js:361-365 | under either cut, the HTML fallback cuts the background's text again at the same place: the page shows what it would show for the original, with only the short notice |
| Pipeline.FirstInjectionFailureSavesText | content.js:70-76 | when the content script's first injection rejects, the background script saves the plain text file |
| Pipeline.WellFormedPageYieldsDocument | background.js:123-147 | once the content script is reachable and its first injection settles, a text whose fallback page text is well-formed always yields a document, downloaded first |
| Pipeline.WellFormedTextYieldsDocument | background.js:123-147 | with the boundary cut, every well-formed text yields a document, downloaded first |
| Pipeline.SplitPairSavesOnlyText | content.js:363-380 | as written, with no function handle in place, the well-formed text that puts a pair across unit 2000 gets only the plain text file; with the boundary cut it gets the HTML document |

## Left out

- Timers and races. The 500 ms settle delays, the 3 s and 5 s timeouts, and the timeouts that fire a fallback even after success (content.js:171-174, 253-255, 344-347) are not modelled. Neither is a `sendResponse` that is called twice. Each callback is modelled as running once, in order.
- `injectJsPDF` as a whole (content.js:123-190) is not modelled. How it settles and the `window.jspdf` it leaves are inputs (`ContentScript.PageOutcomes`). Its steps, the loader and the direct fallback, are modelled.
- The effect of a loaded library script on the page is not modelled. The window passed to a handler is the window after the script ran.
- Chrome APIs (`tabs.sendMessage`, `scripting.executeScript`, `downloads.download`, `FileReader`, `Blob`) are inputs. The "Failed to read blob data" and "Download failed: ..." rejections are not modelled. The model says which downloads are attempted, and the promise settles as the last one does.
- `encodeURIComponent` is not modelled: its value is an input (`encodeUri`), and only its failure condition, a lone surrogate, is modelled.
- jsPDF internals are not modelled. `splitTextToSize`, `output('datauristring')` and the library's floating-point page size (A4 is taken as 210 × 297 mm) are inputs. `setTextColor`, `setFont`, `setProperties` and the `doc.text` options other than position and alignment are not recorded.
- JsPdfCreator.CreatePdf: an exception from jsPDF is one outcome (`Library.fault`), whatever call throws it, because the partial document is discarded either way.
- JsPdfChecker.CheckJsPdf: the `catch` branch (jspdf-checker.js:42-51) is not modelled. Nothing in the model throws: it has no `null` values and no property getters.
- PageGlobals.Window: one list of properties serves both `window[key]` and `Object.keys`, so lookup and the key scan range over the same properties. Inherited and non-enumerable properties, which `window[key]` sees but `Object.keys` does not list (a non-enumerable `window.jsPDF`, say), cannot be represented.
- `null` is not modelled. `Value` has no null, so `window.jspdf = null` and the `TypeError` it would cause do not arise.
- `toLowerCase` maps only Basic Latin capitals. Other characters keep their code unit, which decides nothing for the filter, since "pdf" is ASCII.
- The background script's `onMessage` listener and the active-tab query (background.js:48-80) are not modelled. `saveTextToFile` takes the tab directly. `text` is always a string, so `!text` means empty.
- ContentScript.HandleMessage: the `getSelectedText`, clipboard and `printToPDF` branches are not modelled (DOM and I/O), and they get no reply here.
- popup.js, context-menu registration, and the dead functions in background.js (`loadJsPDF`, `generatePDFInTab`, `generatePlainTextPDF`, `blobToDataURL`) are not modelled. `console` logging is not modelled either.
- The fallback's cut is a parameter (`SimpleDocument.Cut`) of the content script and pipeline members: `AsWritten` is the script as it stands, `AtBoundary` the corrected cut (see Findings). Both are modelled; neither is left out.

## Findings

| source | as written | input that shows it | evidently intended | confidence | as-written member | corrected member |
|---|---|---|---|---|---|---|
| content.js:363-380 | `text.substring(0, 2000)` counts UTF-16 code units and can keep the high half of a surrogate pair without its low half. `encodeURIComponent` then throws a URIError on the page, and the `catch` replies with the quota failure message although the text is fine | 1999 × `a` followed by U+1F600 (code units D83D DE00) | cut at a character boundary, so every well-formed text gets the HTML page | not executed | SimpleDocument.SplitPairBreaksFallback | SimpleDocument.CreateSimplePdfAtBoundary |

End to end, `Pipeline.SplitPairSavesOnlyText` shows the same input saving only `clipped_text.txt` as written, and the HTML document with the corrected cut.

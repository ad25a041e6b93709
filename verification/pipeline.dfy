/**
 * Properties of the scripts taken together: the background script cuts the
 * text before the content script and the page-side creator see it, and the
 * content script's reply decides what the background script saves.
 */
module Pipeline {
  import opened Wrappers
  import opened JsStrings
  import opened Messages
  import opened SimpleDocument
  import JsPdfCreator
  import opened ContentScript
  import opened Background

  /** The content script, with the fallback making `cut`, answering the background script's `generatePDF` message. */
  function ContentResponder(page: PageOutcomes, cut: Cut): JsString -> ChromeResponse {
    t => Responded(HandleMessage(GeneratePdfMessage(t), page, cut).value)
  }

  /** Text cut by the background script is short enough that the creator's 2700-unit cut never applies to it. */
  lemma CreatorKeepsBackgroundText(text: JsString)
    ensures JsPdfCreator.PdfText(BackgroundText(text)) == BackgroundText(text)
  {
    assert |LONG_MARKER| < 700;
  }

  /**
   * Text the background script already cut and marked is longer than 2000
   * units, so the HTML fallback cuts it again at the same place, under either
   * cut: the page holds what the fallback would make of the original text,
   * with only the short notice.
   */
  lemma FallbackRecutsBackgroundText(text: JsString, cut: Cut)
    ensures Truncate(BackgroundText(text), SimpleDocument.MAX_LENGTH, SHORT_MARKER) == Truncate(text, SimpleDocument.MAX_LENGTH, SHORT_MARKER)
    ensures FallbackBody(cut, BackgroundText(text)) == FallbackBody(cut, text)
  {
    assert |LONG_MARKER| > 0;
    TruncateTwice(text, Background.MAX_LENGTH, LONG_MARKER, SHORT_MARKER);
    TruncateAtBoundaryAfterTruncate(text, Background.MAX_LENGTH, LONG_MARKER, SHORT_MARKER);
  }

  /**
   * When the content script's first injection of the library rejects, it
   * answers `success: false`, and the background script saves the plain text
   * file instead of any document: the HTML fallback is not reached.
   */
  lemma FirstInjectionFailureSavesText(text: JsString, tab: Background.Tab, page: PageOutcomes, cut: Cut, documentSaved: bool)
    requires text != [] && UsableTab(Some(tab)) && page.injection.Err?
    ensures SaveTextToFile(text, FORMAT_PDF, Some(tab), PingAnswered, Injected, ContentResponder(page, cut), documentSaved)
      == Downloads([PlainTextFile(text)])
  {
    var reply := FailureReply(page.injection.error);
    assert ContentResponder(page, cut)(BackgroundText(text)) == Responded(reply);
    assert !Succeeded(reply);
  }

  /**
   * Once the content script is reachable and its first injection settles, a
   * text whose fallback page is well-formed always yields a document, and
   * saving it is the first download the background script attempts.
   */
  lemma WellFormedPageYieldsDocument(text: JsString, tab: Background.Tab, page: PageOutcomes, cut: Cut, documentSaved: bool)
    requires text != [] && WellFormed(FallbackBody(cut, text)) && UsableTab(Some(tab)) && page.injection.Ok?
    ensures HandlePdfGeneration(text, PingAnswered, Injected, ContentResponder(page, cut)).Ok?
    ensures HandlePdfGeneration(text, PingAnswered, Injected, ContentResponder(page, cut)).value.Some?
    ensures var saved := SaveTextToFile(text, FORMAT_PDF, Some(tab), PingAnswered, Injected, ContentResponder(page, cut), documentSaved);
      saved.Downloads? && saved.attempts[0].source.DataUri?
  {
    var sent := BackgroundText(text);
    var reply := GeneratePdf(sent, page, cut);
    FallbackRecutsBackgroundText(text, cut);
    GeneratePdfAnswers(sent, page, cut);
    assert Succeeded(reply);
    assert ContentResponder(page, cut)(sent) == Responded(reply);
  }

  /** With the fallback cutting at a character boundary, every well-formed text yields a document. */
  lemma WellFormedTextYieldsDocument(text: JsString, tab: Background.Tab, page: PageOutcomes, documentSaved: bool)
    requires text != [] && WellFormed(text) && UsableTab(Some(tab)) && page.injection.Ok?
    ensures var saved := SaveTextToFile(text, FORMAT_PDF, Some(tab), PingAnswered, Injected, ContentResponder(page, AtBoundary), documentSaved);
      saved.Downloads? && saved.attempts[0].source.DataUri?
  {
    LiteralWellFormed("\n\n[Nội dung đã bị cắt ngắn...]");
    assert WellFormed(FallbackBody(AtBoundary, text));
    WellFormedPageYieldsDocument(text, tab, page, AtBoundary, documentSaved);
  }

  /**
   * As written, the well-formed text that ends a pair across unit 2000 gets no
   * document when no library handle is in place: the background script saves
   * only the plain text file. With the boundary cut it gets the HTML page.
   */
  lemma SplitPairSavesOnlyText(tab: Background.Tab, page: PageOutcomes, documentSaved: bool)
    requires UsableTab(Some(tab)) && page.injection.Ok?
    requires ChooseGenerator(page.handle, page.reinjection, page.handleAfter) == SimpleGenerator
    ensures WellFormed(SplitPairText())
    ensures SaveTextToFile(SplitPairText(), FORMAT_PDF, Some(tab), PingAnswered, Injected, ContentResponder(page, AsWritten), documentSaved)
      == Downloads([PlainTextFile(SplitPairText())])
    ensures var saved := SaveTextToFile(SplitPairText(), FORMAT_PDF, Some(tab), PingAnswered, Injected, ContentResponder(page, AtBoundary), documentSaved);
      saved.Downloads? && saved.attempts[0].source.DataUri?
  {
    var text := SplitPairText();
    SplitPairBreaksFallback(page.encodeUri);
    assert !WellFormed(FallbackBody(AsWritten, text));
    var sent := BackgroundText(text);
    FallbackRecutsBackgroundText(text, AsWritten);
    var reply := GeneratePdf(sent, page, AsWritten);
    GeneratePdfAnswers(sent, page, AsWritten);
    assert !Succeeded(reply);
    assert ContentResponder(page, AsWritten)(sent) == Responded(reply);
    WellFormedTextYieldsDocument(text, tab, page, documentSaved);
  }
}

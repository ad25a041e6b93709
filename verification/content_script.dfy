/**
 * The content script's side of PDF generation: the fallback discovery of the
 * library handle after the library script has been loaded directly, the route
 * `generatePDF` takes, how `createPDF` turns the creator's answer into a
 * reply, and the replies to the `generatePDF` and `ping` messages.
 *
 * Script injection, events and timers are not run: the outcomes they produce
 * are inputs. Every member that reaches the HTML fallback takes the `Cut` it
 * makes: `AsWritten` is the script as it stands, `AtBoundary` the script with
 * the cut moved to a character boundary.
 */
module ContentScript {
  import opened Wrappers
  import opened JsStrings
  import opened Messages
  import opened PageGlobals
  import opened SimpleDocument
  import opened JsPdfCreator

  const NOT_FOUND_AFTER_FALLBACK: JsString := Js("Failed to find jsPDF after fallback loading")
  const FALLBACK_SCRIPT_FAILED: JsString := Js("Failed to load jsPDF script via fallback")
  const FALLBACK_SETUP_FAILED: JsString := Js("Failed to find jsPDF after loading")
  const STATUS_OK: JsString := Js("ok")

  /** `new Error(message).toString()`. */
  function ErrorText(message: JsString): (r: JsString)
    ensures |r| == |message| + 7 && r[7..] == message
  {
    Js("Error: ") + message
  }

  // ---------------------------------------------------------------------------
  // fallbackLoadJsPDF: finding the handle
  // ---------------------------------------------------------------------------

  /** One of the three routes of the fallback supplies a handle. */
  predicate FallbackFinds(props: seq<Property>) {
    || Lookup(props, JSPDF_CONSTRUCTOR_KEY).Some?
    || HasConstructor(Lookup(props, JSPDF_NAMESPACE_KEY))
    || ScanResult(props).Some?
  }

  /** The window's properties after the fallback's discovery step. */
  function FallbackProps(props: seq<Property>): seq<Property> {
    var windowCtor := Lookup(props, JSPDF_CONSTRUCTOR_KEY);
    if windowCtor.Some? then Assign(props, JSPDF_NAMESPACE_KEY, Namespace(windowCtor))
    else if HasConstructor(Lookup(props, JSPDF_NAMESPACE_KEY)) then props
    else if ScanResult(props).Some? then Assign(props, JSPDF_NAMESPACE_KEY, Namespace(ScanResult(props)))
    else props
  }

  /**
   * The `setTimeout` callback after the library script loaded: `window.jsPDF`,
   * then a function under `window.jspdf.jsPDF`, then the scan; the promise
   * settles as `r` says.
   */
  method DiscoverAfterFallback(window: Window) returns (r: Result<(), JsString>)
    requires window.Valid()
    modifies window
    ensures window.Valid() && window.lexical == old(window.lexical)
    ensures window.props == FallbackProps(old(window.props))
    ensures r == if FallbackFinds(old(window.props)) then Ok(()) else Err(ErrorText(NOT_FOUND_AFTER_FALLBACK))
  {
    if window.Get(JSPDF_CONSTRUCTOR_KEY).Some? {
      window.Set(JSPDF_NAMESPACE_KEY, Namespace(window.Get(JSPDF_CONSTRUCTOR_KEY)));
      return Ok(());
    } else if window.Get(JSPDF_NAMESPACE_KEY).Some? && JsPdfProperty(window.Get(JSPDF_NAMESPACE_KEY).value).Some?
      && JsPdfProperty(window.Get(JSPDF_NAMESPACE_KEY).value).value.Function?
    {
      return Ok(());
    } else {
      var found := window.ScanPdfKeys();
      if found {
        return Ok(());
      } else {
        return Err(ErrorText(NOT_FOUND_AFTER_FALLBACK));
      }
    }
  }

  /** `fallbackLoadJsPDF`, given how loading the library script directly fares. */
  method FallbackLoad(window: Window, script: ScriptOutcome) returns (r: Result<(), JsString>)
    requires window.Valid()
    modifies window
    ensures window.Valid() && window.lexical == old(window.lexical)
    ensures script.ScriptLoaded? ==>
      && window.props == FallbackProps(old(window.props))
      && r == if FallbackFinds(old(window.props)) then Ok(()) else Err(ErrorText(NOT_FOUND_AFTER_FALLBACK))
    ensures script.ScriptFailed? ==> window.props == old(window.props) && r == Err(ErrorText(FALLBACK_SCRIPT_FAILED))
    ensures script.SetupThrew? ==> window.props == old(window.props) && r == Err(ErrorText(FALLBACK_SETUP_FAILED))
  {
    match script {
      case ScriptLoaded =>
        r := DiscoverAfterFallback(window);
      case ScriptFailed =>
        r := Err(ErrorText(FALLBACK_SCRIPT_FAILED));
      case SetupThrew(_) =>
        r := Err(ErrorText(FALLBACK_SETUP_FAILED));
    }
  }

  /**
   * Precedence of the fallback: `window.jsPDF` first, then a function under
   * `window.jspdf.jsPDF` (kept as it is), then the scan, which writes
   * `window.jspdf` only on a match; nothing else is written.
   */
  lemma FallbackPrecedence(props: seq<Property>, key: JsString)
    ensures Lookup(props, JSPDF_CONSTRUCTOR_KEY).Some? ==>
      Lookup(FallbackProps(props), JSPDF_NAMESPACE_KEY) == Some(Namespace(Lookup(props, JSPDF_CONSTRUCTOR_KEY)))
    ensures Lookup(props, JSPDF_CONSTRUCTOR_KEY).None? && HasConstructor(Lookup(props, JSPDF_NAMESPACE_KEY)) ==>
      FallbackProps(props) == props
    ensures Lookup(props, JSPDF_CONSTRUCTOR_KEY).None? && !HasConstructor(Lookup(props, JSPDF_NAMESPACE_KEY)) ==>
      Lookup(FallbackProps(props), JSPDF_NAMESPACE_KEY) ==
        if ScanResult(props).Some? then Some(Namespace(ScanResult(props))) else Lookup(props, JSPDF_NAMESPACE_KEY)
    ensures key != JSPDF_NAMESPACE_KEY ==> Lookup(FallbackProps(props), key) == Lookup(props, key)
  {
    AssignLookup(props, JSPDF_NAMESPACE_KEY, Namespace(Lookup(props, JSPDF_CONSTRUCTOR_KEY)), JSPDF_NAMESPACE_KEY);
    AssignLookup(props, JSPDF_NAMESPACE_KEY, Namespace(ScanResult(props)), JSPDF_NAMESPACE_KEY);
    AssignLookup(props, JSPDF_NAMESPACE_KEY, Namespace(Lookup(props, JSPDF_CONSTRUCTOR_KEY)), key);
    AssignLookup(props, JSPDF_NAMESPACE_KEY, Namespace(ScanResult(props)), key);
  }

  /**
   * After a successful fallback, `window.jspdf.jsPDF` is a function unless it
   * came from a `window.jsPDF` that is not one: that route checks only that
   * the name is defined.
   */
  lemma FallbackLeavesConstructor(props: seq<Property>)
    requires FallbackFinds(props)
    ensures HasConstructor(Lookup(FallbackProps(props), JSPDF_NAMESPACE_KEY)) <==>
      Lookup(props, JSPDF_CONSTRUCTOR_KEY).None? || Lookup(props, JSPDF_CONSTRUCTOR_KEY).value.Function?
  {
    FallbackPrecedence(props, JSPDF_NAMESPACE_KEY);
    ScanResultIsCandidate(props);
  }

  // ---------------------------------------------------------------------------
  // generatePDF and createPDF
  // ---------------------------------------------------------------------------

  /** Which generator `generatePDF` ends up calling. */
  datatype Generator = JsPdfGenerator | SimpleGenerator

  /**
   * `generatePDF`: with a function under `window.jspdf.jsPDF` it calls the
   * creator at once; otherwise it injects the library again and calls the
   * creator only if that settles and leaves a function handle.
   */
  function ChooseGenerator(handle: Option<Value>, injection: Result<(), JsString>, handleAfter: Option<Value>): Generator {
    if HasConstructor(handle) then JsPdfGenerator
    else if injection.Err? then SimpleGenerator
    else if HasConstructor(handleAfter) then JsPdfGenerator
    else SimpleGenerator
  }

  /** The creator is used exactly when a function handle is in place, before or after the injection. */
  lemma CreatorNeedsConstructor(handle: Option<Value>, injection: Result<(), JsString>, handleAfter: Option<Value>)
    ensures ChooseGenerator(handle, injection, handleAfter) == JsPdfGenerator <==>
      HasConstructor(handle) || (injection.Ok? && HasConstructor(handleAfter))
  {
  }

  /** What comes back from the page once `createPDF` has added the creator script. */
  datatype CreatorOutcome =
    /** The `pdf-created` event with the creator's result. */
    | CreatorAnswered(detail: Creation)
    /** The creator script's `onerror`. */
    | CreatorScriptFailed

  /** `createPDF`: a created document is the reply; anything else falls back to the HTML page. */
  function CreatePdfReply(text: JsString, creator: CreatorOutcome, encodeUri: JsString -> JsString, cut: Cut): (r: Reply)
    ensures creator.CreatorAnswered? && creator.detail.Created? ==> r == PdfReply(creator.detail.pdfData)
    ensures !(creator.CreatorAnswered? && creator.detail.Created?) ==> r == SimplePdf(cut, text, encodeUri)
  {
    match creator {
      case CreatorAnswered(Created(pdfData, _)) => PdfReply(pdfData)
      case _ => SimplePdf(cut, text, encodeUri)
    }
  }

  /** What the page does while the content script handles a message; the content script only observes it. */
  datatype PageOutcomes = PageOutcomes(
    /** How the `injectJsPDF()` the message handler starts with settles. */
    injection: Result<(), JsString>,
    /** `window.jspdf` when `generatePDF` starts. */
    handle: Option<Value>,
    /** How the second `injectJsPDF()` of `generatePDF` settles, when it makes one. */
    reinjection: Result<(), JsString>,
    /** `window.jspdf` after that second injection. */
    handleAfter: Option<Value>,
    creator: CreatorOutcome,
    /** The value `encodeURIComponent` returns for a well-formed string. */
    encodeUri: JsString -> JsString)

  /** The reply `generatePDF` sends. */
  function GeneratePdf(text: JsString, page: PageOutcomes, cut: Cut): Reply {
    match ChooseGenerator(page.handle, page.reinjection, page.handleAfter)
    case JsPdfGenerator => CreatePdfReply(text, page.creator, page.encodeUri, cut)
    case SimpleGenerator => SimplePdf(cut, text, page.encodeUri)
  }

  /**
   * `generatePDF` always answers with a generation reply. It succeeds whenever
   * the text the fallback page would show is well-formed; when no handle is in
   * place it succeeds exactly then, so as written a text cut inside a pair
   * fails, and with the boundary cut any well-formed text succeeds. A success
   * carries a document, an HTML document is a `data:text/html` URI, and a
   * failure is the quota message.
   */
  lemma GeneratePdfAnswers(text: JsString, page: PageOutcomes, cut: Cut)
    ensures GeneratePdf(text, page, cut).GenerationReply?
    ensures WellFormed(FallbackBody(cut, text)) ==> Succeeded(GeneratePdf(text, page, cut))
    ensures ChooseGenerator(page.handle, page.reinjection, page.handleAfter) == SimpleGenerator ==>
      (Succeeded(GeneratePdf(text, page, cut)) <==> WellFormed(FallbackBody(cut, text)))
    ensures cut == AtBoundary && WellFormed(text) ==> Succeeded(GeneratePdf(text, page, cut))
    ensures Succeeded(GeneratePdf(text, page, cut)) ==> GeneratePdf(text, page, cut).pdfData.Some?
    ensures GeneratePdf(text, page, cut).isHtml ==> DATA_URI_PREFIX <= GeneratePdf(text, page, cut).pdfData.value
    ensures !Succeeded(GeneratePdf(text, page, cut)) ==> GeneratePdf(text, page, cut) == FailureReply(FAILURE_MESSAGE)
  {
  }

  /** The messages the model handles; any other action gets no reply here. */
  datatype Message = GeneratePdfMessage(text: JsString) | PingMessage | OtherMessage

  /** The `onMessage` listener's `generatePDF` and `ping` branches. */
  function HandleMessage(message: Message, page: PageOutcomes, cut: Cut): Option<Reply> {
    match message
    case GeneratePdfMessage(text) =>
      if page.injection.Err? then Some(FailureReply(page.injection.error)) else Some(GeneratePdf(message.text, page, cut))
    case PingMessage => Some(StatusReply(STATUS_OK))
    case OtherMessage => None
  }

  /**
   * A rejected first injection is answered with `success: false` and its error,
   * not with the HTML fallback; a ping is answered with status "ok".
   */
  lemma MessageReplies(message: Message, page: PageOutcomes, cut: Cut)
    ensures message.GeneratePdfMessage? && page.injection.Err? ==>
      HandleMessage(message, page, cut) == Some(GenerationReply(false, None, false, Some(page.injection.error)))
    ensures message.GeneratePdfMessage? && page.injection.Ok? ==>
      HandleMessage(message, page, cut) == Some(GeneratePdf(message.text, page, cut))
    ensures message.PingMessage? ==> HandleMessage(message, page, cut) == Some(StatusReply(STATUS_OK))
    ensures message.OtherMessage? ==> HandleMessage(message, page, cut).None?
  {
  }
}

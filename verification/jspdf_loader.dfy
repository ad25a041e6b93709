/**
 * The page-side loader. When it starts, a `window.jsPDF` that is already
 * defined is normalised into `window.jspdf` and reported at once. Otherwise it
 * waits for `load-jspdf`, loads the library script, and resolves the handle
 * from the globals: `window.jsPDF`, then the bare name `jsPDF`, then an
 * existing `window.jspdf.jsPDF`, then the first pdf-named global whose
 * source mentions jsPDF. Then it reports whether a handle is in place.
 */
module JsPdfLoader {
  import opened Wrappers
  import opened JsStrings
  import opened PageGlobals

  const LOAD_FAILED: JsString := Js("Failed to load jsPDF script")

  /** `typeof window.jspdf !== 'undefined' && typeof window.jspdf.jsPDF !== 'undefined'`. */
  predicate Available(props: seq<Property>) {
    Lookup(props, JSPDF_NAMESPACE_KEY).Some? && JsPdfProperty(Lookup(props, JSPDF_NAMESPACE_KEY).value).Some?
  }

  /** The window's properties once the handler has resolved the handle. */
  function Resolved(props: seq<Property>, lexical: map<JsString, Value>): seq<Property> {
    var windowCtor := Lookup(props, JSPDF_CONSTRUCTOR_KEY);
    var bareCtor := Binding(props, lexical, JSPDF_CONSTRUCTOR_KEY);
    if windowCtor.Some? then Assign(props, JSPDF_NAMESPACE_KEY, Namespace(windowCtor))
    else if bareCtor.Some? then Assign(props, JSPDF_NAMESPACE_KEY, Namespace(bareCtor))
    else if Available(props) then props
    else if ScanResult(props).Some? then Assign(props, JSPDF_NAMESPACE_KEY, Namespace(ScanResult(props)))
    else props
  }

  /**
   * The loader's top level: a defined `window.jsPDF` is wrapped into
   * `window.jspdf` and an available status goes out at once, with no listener
   * registered; otherwise nothing changes and the loader listens.
   */
  method Start(window: Window) returns (status: Option<LibraryStatus>, listens: bool)
    requires window.Valid()
    modifies window
    ensures window.Valid() && window.lexical == old(window.lexical)
    ensures old(window.Get(JSPDF_CONSTRUCTOR_KEY)).Some? ==>
      && !listens
      && window.props == Assign(old(window.props), JSPDF_NAMESPACE_KEY, Namespace(old(window.Get(JSPDF_CONSTRUCTOR_KEY))))
      && status == Some(LibraryStatus(true, Some(Namespace(old(window.Get(JSPDF_CONSTRUCTOR_KEY)))), None))
    ensures old(window.Get(JSPDF_CONSTRUCTOR_KEY)).None? ==> listens && status.None? && window.props == old(window.props)
  {
    var ctor := window.Get(JSPDF_CONSTRUCTOR_KEY);
    if ctor.Some? {
      window.Set(JSPDF_NAMESPACE_KEY, Namespace(ctor));
      AssignLookup(old(window.props), JSPDF_NAMESPACE_KEY, Namespace(ctor), JSPDF_NAMESPACE_KEY);
      return Some(LibraryStatus(true, window.Get(JSPDF_NAMESPACE_KEY), None)), false;
    }
    return None, true;
  }

  /** The `setTimeout` callback after the library script has loaded: resolve the handle, then report. */
  method ResolveHandle(window: Window) returns (status: LibraryStatus)
    requires window.Valid()
    modifies window
    ensures window.Valid() && window.lexical == old(window.lexical)
    ensures window.props == Resolved(old(window.props), old(window.lexical))
    ensures status == LibraryStatus(Available(window.props), Lookup(window.props, JSPDF_NAMESPACE_KEY), None)
  {
    if window.Get(JSPDF_CONSTRUCTOR_KEY).Some? {
      window.Set(JSPDF_NAMESPACE_KEY, Namespace(window.Get(JSPDF_CONSTRUCTOR_KEY)));
    } else if window.Resolve(JSPDF_CONSTRUCTOR_KEY).Some? {
      window.Set(JSPDF_NAMESPACE_KEY, Namespace(window.Resolve(JSPDF_CONSTRUCTOR_KEY)));
    } else if window.Get(JSPDF_NAMESPACE_KEY).Some? && JsPdfProperty(window.Get(JSPDF_NAMESPACE_KEY).value).Some? {
      // already in place
    } else {
      var found := window.ScanPdfKeys();
    }
    status := LibraryStatus(Available(window.props), window.Get(JSPDF_NAMESPACE_KEY), None);
  }

  /** The `load-jspdf` listener, given how loading the library script fares. */
  method OnLoadJsPdf(window: Window, script: ScriptOutcome) returns (status: LibraryStatus)
    requires window.Valid()
    modifies window
    ensures window.Valid() && window.lexical == old(window.lexical)
    ensures script.ScriptLoaded? ==>
      && window.props == Resolved(old(window.props), old(window.lexical))
      && status == LibraryStatus(Available(window.props), Lookup(window.props, JSPDF_NAMESPACE_KEY), None)
    ensures script.ScriptFailed? ==> window.props == old(window.props) && status == LibraryStatus(false, None, Some(LOAD_FAILED))
    ensures script.SetupThrew? ==> window.props == old(window.props) && status == LibraryStatus(false, None, Some(script.error))
  {
    match script {
      case ScriptLoaded =>
        status := ResolveHandle(window);
      case ScriptFailed =>
        status := LibraryStatus(false, None, Some(LOAD_FAILED));
      case SetupThrew(error) =>
        status := LibraryStatus(false, None, Some(error));
    }
  }

  // ---------------------------------------------------------------------------
  // What resolution promises
  // ---------------------------------------------------------------------------

  /**
   * Precedence: `window.jsPDF` wins over everything; failing that the bare
   * `jsPDF`; failing that an existing handle is kept; only then does the scan
   * decide, and `window.jspdf` changes only when the scan finds something.
   */
  lemma ResolvedPrecedence(props: seq<Property>, lexical: map<JsString, Value>)
    ensures var windowCtor := Lookup(props, JSPDF_CONSTRUCTOR_KEY);
      windowCtor.Some? ==> Lookup(Resolved(props, lexical), JSPDF_NAMESPACE_KEY) == Some(Namespace(windowCtor))
    ensures Lookup(props, JSPDF_CONSTRUCTOR_KEY).None? && JSPDF_CONSTRUCTOR_KEY in lexical ==>
      Lookup(Resolved(props, lexical), JSPDF_NAMESPACE_KEY) == Some(Namespace(Some(lexical[JSPDF_CONSTRUCTOR_KEY])))
    ensures Binding(props, lexical, JSPDF_CONSTRUCTOR_KEY).None? && Available(props) ==> Resolved(props, lexical) == props
    ensures Binding(props, lexical, JSPDF_CONSTRUCTOR_KEY).None? && !Available(props) ==>
      Lookup(Resolved(props, lexical), JSPDF_NAMESPACE_KEY) ==
        if ScanResult(props).Some? then Some(Namespace(ScanResult(props))) else Lookup(props, JSPDF_NAMESPACE_KEY)
  {
    var v := Namespace(Binding(props, lexical, JSPDF_CONSTRUCTOR_KEY));
    AssignLookup(props, JSPDF_NAMESPACE_KEY, v, JSPDF_NAMESPACE_KEY);
    AssignLookup(props, JSPDF_NAMESPACE_KEY, Namespace(Lookup(props, JSPDF_CONSTRUCTOR_KEY)), JSPDF_NAMESPACE_KEY);
    AssignLookup(props, JSPDF_NAMESPACE_KEY, Namespace(ScanResult(props)), JSPDF_NAMESPACE_KEY);
  }

  /** Resolution writes `window.jspdf` and nothing else. */
  lemma ResolvedFrame(props: seq<Property>, lexical: map<JsString, Value>, key: JsString)
    requires key != JSPDF_NAMESPACE_KEY
    ensures Lookup(Resolved(props, lexical), key) == Lookup(props, key)
  {
    AssignLookup(props, JSPDF_NAMESPACE_KEY, Namespace(Binding(props, lexical, JSPDF_CONSTRUCTOR_KEY)), key);
    AssignLookup(props, JSPDF_NAMESPACE_KEY, Namespace(Lookup(props, JSPDF_CONSTRUCTOR_KEY)), key);
    AssignLookup(props, JSPDF_NAMESPACE_KEY, Namespace(ScanResult(props)), key);
  }

  /** The loader reports a handle exactly when one of the four routes supplies one. */
  lemma ResolvedAvailable(props: seq<Property>, lexical: map<JsString, Value>)
    ensures Available(Resolved(props, lexical)) <==>
      Binding(props, lexical, JSPDF_CONSTRUCTOR_KEY).Some? || Available(props) || ScanResult(props).Some?
  {
    ResolvedPrecedence(props, lexical);
  }

  /**
   * The flag asks only for a defined `window.jspdf.jsPDF`: a handle that is
   * not a function is reported available although the creator refuses it.
   */
  lemma AvailableWithoutConstructor()
    ensures var props := [Property(JSPDF_NAMESPACE_KEY, Namespace(Some(OtherValue(0))))];
      && Available(Resolved(props, map[]))
      && !HasConstructor(Lookup(Resolved(props, map[]), JSPDF_NAMESPACE_KEY))
  {
    var props := [Property(JSPDF_NAMESPACE_KEY, Namespace(Some(OtherValue(0))))];
    assert JSPDF_CONSTRUCTOR_KEY[2] != JSPDF_NAMESPACE_KEY[2];
    assert Lookup(props, JSPDF_CONSTRUCTOR_KEY) == Lookup(props[1..], JSPDF_CONSTRUCTOR_KEY);
  }
}

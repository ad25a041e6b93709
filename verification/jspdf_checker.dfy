/**
 * The page-side `check-jspdf-loaded` listener: it looks for the library under
 * `window.jspdf`, the bare name `jspdf`, `window.jsPDF` and the bare name
 * `jsPDF`, in that order, makes sure what it found is also reachable as
 * `window.jspdf`, and reports what it found.
 */
module JsPdfChecker {
  import opened Wrappers
  import opened JsStrings
  import opened PageGlobals

  /** The library object the checker settles on, if any. */
  function Found(props: seq<Property>, lexical: map<JsString, Value>): Option<Value> {
    var windowNamespace := Lookup(props, JSPDF_NAMESPACE_KEY);
    var bareNamespace := Binding(props, lexical, JSPDF_NAMESPACE_KEY);
    var windowCtor := Lookup(props, JSPDF_CONSTRUCTOR_KEY);
    var bareCtor := Binding(props, lexical, JSPDF_CONSTRUCTOR_KEY);
    if windowNamespace.Some? then windowNamespace
    else if bareNamespace.Some? then bareNamespace
    else if windowCtor.Some? then Some(Namespace(windowCtor))
    else if bareCtor.Some? then Some(Namespace(bareCtor))
    else None
  }

  /** The window's properties after the check: what was found sits under `window.jspdf`. */
  function Normalised(props: seq<Property>, lexical: map<JsString, Value>): seq<Property> {
    var found := Found(props, lexical);
    if Lookup(props, JSPDF_NAMESPACE_KEY).Some? || found.None? then props
    else Assign(props, JSPDF_NAMESPACE_KEY, found.value)
  }

  /** The listener; an exception it could catch does not arise in the model. */
  method CheckJsPdf(window: Window) returns (status: LibraryStatus)
    requires window.Valid()
    modifies window
    ensures window.Valid() && window.lexical == old(window.lexical)
    ensures window.props == Normalised(old(window.props), old(window.lexical))
    ensures status == LibraryStatus(Found(old(window.props), old(window.lexical)).Some?, Found(old(window.props), old(window.lexical)), None)
  {
    var available := false;
    var jspdfObject: Option<Value> := None;
    if window.Get(JSPDF_NAMESPACE_KEY).Some? {
      available := true;
      jspdfObject := window.Get(JSPDF_NAMESPACE_KEY);
    } else if window.Resolve(JSPDF_NAMESPACE_KEY).Some? {
      available := true;
      jspdfObject := window.Resolve(JSPDF_NAMESPACE_KEY);
      window.Set(JSPDF_NAMESPACE_KEY, jspdfObject.value);
    } else if window.Get(JSPDF_CONSTRUCTOR_KEY).Some? {
      available := true;
      jspdfObject := Some(Namespace(window.Get(JSPDF_CONSTRUCTOR_KEY)));
      window.Set(JSPDF_NAMESPACE_KEY, jspdfObject.value);
    } else if window.Resolve(JSPDF_CONSTRUCTOR_KEY).Some? {
      available := true;
      jspdfObject := Some(Namespace(window.Resolve(JSPDF_CONSTRUCTOR_KEY)));
      window.Set(JSPDF_NAMESPACE_KEY, jspdfObject.value);
    }
    status := LibraryStatus(available, jspdfObject, None);
  }

  /** `available` holds exactly when the name `jspdf` or the name `jsPDF` is bound, on `window` or lexically. */
  lemma FoundIffBound(props: seq<Property>, lexical: map<JsString, Value>)
    ensures Found(props, lexical).Some? <==>
      Binding(props, lexical, JSPDF_NAMESPACE_KEY).Some? || Binding(props, lexical, JSPDF_CONSTRUCTOR_KEY).Some?
  {
  }

  /**
   * Whatever the checker reports is afterwards reachable as `window.jspdf`;
   * a `window.jspdf` that was already defined is returned as it is and left
   * alone; no other property changes.
   */
  lemma NormalisedHoldsFound(props: seq<Property>, lexical: map<JsString, Value>, key: JsString)
    ensures Found(props, lexical).Some? ==> Lookup(Normalised(props, lexical), JSPDF_NAMESPACE_KEY) == Found(props, lexical)
    ensures Lookup(props, JSPDF_NAMESPACE_KEY).Some? ==>
      Normalised(props, lexical) == props && Found(props, lexical) == Lookup(props, JSPDF_NAMESPACE_KEY)
    ensures key != JSPDF_NAMESPACE_KEY ==> Lookup(Normalised(props, lexical), key) == Lookup(props, key)
  {
    var found := Found(props, lexical);
    if Lookup(props, JSPDF_NAMESPACE_KEY).None? && found.Some? {
      AssignLookup(props, JSPDF_NAMESPACE_KEY, found.value, JSPDF_NAMESPACE_KEY);
      AssignLookup(props, JSPDF_NAMESPACE_KEY, found.value, key);
    }
  }

  /**
   * The namespace routes come first: a defined `window.jspdf` is reported as
   * it is; otherwise a lexical `jspdf` is reported, ahead of any `jsPDF`, and
   * stored as `window.jspdf` unwrapped.
   */
  lemma NamespaceReported(props: seq<Property>, lexical: map<JsString, Value>)
    ensures Lookup(props, JSPDF_NAMESPACE_KEY).Some? ==> Found(props, lexical) == Lookup(props, JSPDF_NAMESPACE_KEY)
    ensures Lookup(props, JSPDF_NAMESPACE_KEY).None? && JSPDF_NAMESPACE_KEY in lexical ==>
      && Found(props, lexical) == Some(lexical[JSPDF_NAMESPACE_KEY])
      && Lookup(Normalised(props, lexical), JSPDF_NAMESPACE_KEY) == Some(lexical[JSPDF_NAMESPACE_KEY])
  {
    if Lookup(props, JSPDF_NAMESPACE_KEY).None? && JSPDF_NAMESPACE_KEY in lexical {
      AssignLookup(props, JSPDF_NAMESPACE_KEY, lexical[JSPDF_NAMESPACE_KEY], JSPDF_NAMESPACE_KEY);
    }
  }

  /** A constructor found under either `jsPDF` binding is wrapped as `{jsPDF: constructor}`, `window.jsPDF` first. */
  lemma ConstructorWrapped(props: seq<Property>, lexical: map<JsString, Value>)
    requires Binding(props, lexical, JSPDF_NAMESPACE_KEY).None?
    ensures Lookup(props, JSPDF_CONSTRUCTOR_KEY).Some? ==>
      Found(props, lexical) == Some(Namespace(Lookup(props, JSPDF_CONSTRUCTOR_KEY)))
    ensures Lookup(props, JSPDF_CONSTRUCTOR_KEY).None? && JSPDF_CONSTRUCTOR_KEY in lexical ==>
      Found(props, lexical) == Some(Namespace(Some(lexical[JSPDF_CONSTRUCTOR_KEY])))
  {
  }
}

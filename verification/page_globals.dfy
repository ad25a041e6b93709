/**
 * The global environment that the jsPDF discovery code inspects: the
 * enumerable own properties of `window` in `Object.keys` order, the global
 * lexical declarations that a bare identifier can also resolve to, and the
 * first-match scan over the pdf-named keys that the loader and the content
 * script's fallback both run.
 */
module PageGlobals {
  import opened Wrappers
  import opened JsStrings

  /** A JavaScript value, as far as the discovery code tells values apart. */
  datatype Value =
    /** `typeof v === 'function'`; `source` is what `v.toString()` returns. */
    | Function(source: JsString)
    /** An object whose `jsPDF` property may be defined, such as the module namespace jsPDF exports. */
    | Namespace(jsPDF: Option<Value>)
    /** Any other defined, non-null value. */
    | OtherValue(tag: nat)

  /** `v.jsPDF`: only a namespace object carries the property. */
  function JsPdfProperty(v: Value): Option<Value> {
    if v.Namespace? then v.jsPDF else None
  }

  /** `typeof x !== 'undefined' && typeof x.jsPDF === 'function'`. */
  predicate HasConstructor(x: Option<Value>) {
    x.Some? && JsPdfProperty(x.value).Some? && JsPdfProperty(x.value).value.Function?
  }

  datatype Property = Property(key: JsString, value: Value)

  /** The status object a page script sends back in a custom event. */
  datatype LibraryStatus = LibraryStatus(available: bool, jspdfObject: Option<Value>, error: Option<JsString>)

  /**
   * How a `<script>` element that loads the library fares: it loads and runs
   * (the globals it defines are then in the window), it fires `onerror`, or
   * building and appending it throws an exception with the given text.
   */
  datatype ScriptOutcome = ScriptLoaded | ScriptFailed | SetupThrew(error: JsString)

  const JSPDF_NAMESPACE_KEY: JsString := Js("jspdf")   // window.jspdf, and the bare name jspdf
  const JSPDF_CONSTRUCTOR_KEY: JsString := Js("jsPDF") // window.jsPDF, and the bare name jsPDF
  const PDF: JsString := Js("pdf")

  // ---------------------------------------------------------------------------
  // Property lists
  // ---------------------------------------------------------------------------

  function Keys(props: seq<Property>): (ks: seq<JsString>)
    ensures |ks| == |props| && forall i | 0 <= i < |props| :: ks[i] == props[i].key
  {
    seq(|props|, i requires 0 <= i < |props| => props[i].key)
  }

  predicate DistinctKeys(props: seq<Property>) {
    forall i, j | 0 <= i < j < |props| :: props[i].key != props[j].key
  }

  /** `window[key]`. */
  function Lookup(props: seq<Property>, key: JsString): (r: Option<Value>)
    ensures r.None? <==> key !in Keys(props)
  {
    if props == [] then None
    else if props[0].key == key then Some(props[0].value)
    else Lookup(props[1..], key)
  }

  /** `window[key] = v`: an existing property keeps its place, a new one goes last. */
  function Assign(props: seq<Property>, key: JsString, v: Value): seq<Property> {
    if props == [] then [Property(key, v)]
    else if props[0].key == key then [Property(key, v)] + props[1..]
    else [props[0]] + Assign(props[1..], key, v)
  }

  /** After an assignment the key reads back the new value and every other key reads as before. */
  lemma {:induction false} AssignLookup(props: seq<Property>, key: JsString, v: Value, other: JsString)
    ensures Lookup(Assign(props, key, v), other) == if other == key then Some(v) else Lookup(props, other)
  {
    if props != [] && props[0].key != key {
      AssignLookup(props[1..], key, v, other);
    }
  }

  lemma KeysCons(p: Property, rest: seq<Property>)
    ensures Keys([p] + rest) == [p.key] + Keys(rest)
  {
    var whole := [p] + rest;
    var a := Keys(whole);
    var b := [p.key] + Keys(rest);
    forall i | 0 <= i < |a| ensures a[i] == b[i] {
      if i > 0 {
        assert whole[i] == rest[i - 1];
      }
    }
  }

  /** An assignment keeps the order of the keys and appends a key that was absent. */
  lemma {:induction false} AssignKeys(props: seq<Property>, key: JsString, v: Value)
    ensures Keys(Assign(props, key, v)) == if key in Keys(props) then Keys(props) else Keys(props) + [key]
  {
    if props == [] {
      assert Keys(Assign(props, key, v)) == [key];
    } else {
      var tail := props[1..];
      assert props == [props[0]] + tail;
      KeysCons(props[0], tail);
      if props[0].key == key {
        KeysCons(Property(key, v), tail);
      } else {
        AssignKeys(tail, key, v);
        KeysCons(props[0], Assign(tail, key, v));
        assert key in Keys(props) <==> key in Keys(tail);
      }
    }
  }

  lemma AssignDistinct(props: seq<Property>, key: JsString, v: Value)
    requires DistinctKeys(props)
    ensures DistinctKeys(Assign(props, key, v))
  {
    AssignKeys(props, key, v);
    var r := Assign(props, key, v);
    var ks := Keys(props);
    forall i, j | 0 <= i < j < |r| ensures r[i].key != r[j].key {
      assert Keys(r)[i] == r[i].key && Keys(r)[j] == r[j].key;
      if j < |props| {
        assert ks[i] == props[i].key && ks[j] == props[j].key;
      } else {
        assert ks[i] == props[i].key;
      }
    }
  }

  /** A bare identifier: a global lexical binding shadows the property of `window`. */
  function Binding(props: seq<Property>, lexical: map<JsString, Value>, name: JsString): (r: Option<Value>)
    ensures r.None? <==> name !in lexical && name !in Keys(props)
    ensures name in lexical ==> r == Some(lexical[name])
    ensures name !in lexical ==> r == Lookup(props, name)
  {
    if name in lexical then Some(lexical[name]) else Lookup(props, name)
  }

  // ---------------------------------------------------------------------------
  // The key scan
  // ---------------------------------------------------------------------------

  /** The filter of the scan: `key.toLowerCase().includes('pdf') || key.toLowerCase().includes('jspdf')`. */
  predicate IsPdfKey(key: JsString) {
    Contains(ToLowerCase(key), PDF) || Contains(ToLowerCase(key), JSPDF_NAMESPACE_KEY)
  }

  /** The second disjunct of the filter adds nothing: "jspdf" contains "pdf". */
  lemma PdfKeyIsPdfNamed(key: JsString)
    ensures IsPdfKey(key) <==> Contains(ToLowerCase(key), PDF)
  {
    assert JSPDF_NAMESPACE_KEY[2..5] == PDF;
    assert OccursAt(JSPDF_NAMESPACE_KEY, PDF, 2);
    if Contains(ToLowerCase(key), JSPDF_NAMESPACE_KEY) {
      ContainsTransitive(ToLowerCase(key), JSPDF_NAMESPACE_KEY, PDF);
    }
  }

  /** `Object.keys(window).filter(...)`: the pdf-named keys, in order. */
  function PdfKeys(props: seq<Property>): (ks: seq<JsString>)
    ensures forall k | k in ks :: IsPdfKey(k) && k in Keys(props)
    ensures forall p | p in props && IsPdfKey(p.key) :: p.key in ks
  {
    if props == [] then []
    else if IsPdfKey(props[0].key) then [props[0].key] + PdfKeys(props[1..])
    else PdfKeys(props[1..])
  }

  /** `typeof window[key] === 'function' && window[key].toString().includes('jsPDF')`. */
  predicate IsConstructorCandidate(v: Option<Value>) {
    v.Some? && v.value.Function? && Contains(v.value.source, JSPDF_CONSTRUCTOR_KEY)
  }

  /** The value of the first key, in order, that holds a candidate. */
  function FirstCandidate(keys: seq<JsString>, props: seq<Property>): Option<Value> {
    if keys == [] then None
    else if IsConstructorCandidate(Lookup(props, keys[0])) then Lookup(props, keys[0])
    else FirstCandidate(keys[1..], props)
  }

  /** The outcome of the scan over the pdf-named keys. */
  function ScanResult(props: seq<Property>): Option<Value> {
    FirstCandidate(PdfKeys(props), props)
  }

  /** What the scan returns is the first key, in order, whose value is a candidate; no candidate means nothing is found. */
  lemma {:induction false} FirstCandidateIsFirst(keys: seq<JsString>, props: seq<Property>)
    ensures FirstCandidate(keys, props).Some? ==>
      exists i | 0 <= i < |keys| ::
        && Lookup(props, keys[i]) == FirstCandidate(keys, props)
        && IsConstructorCandidate(Lookup(props, keys[i]))
        && forall j | 0 <= j < i :: !IsConstructorCandidate(Lookup(props, keys[j]))
    ensures FirstCandidate(keys, props).None? <==>
      forall i | 0 <= i < |keys| :: !IsConstructorCandidate(Lookup(props, keys[i]))
  {
    if keys != [] {
      FirstCandidateIsFirst(keys[1..], props);
      if IsConstructorCandidate(Lookup(props, keys[0])) {
        assert Lookup(props, keys[0]) == FirstCandidate(keys, props);
      } else if FirstCandidate(keys, props).Some? {
        var i :| 0 <= i < |keys[1..]| && Lookup(props, keys[1..][i]) == FirstCandidate(keys[1..], props)
          && IsConstructorCandidate(Lookup(props, keys[1..][i]))
          && forall j | 0 <= j < i :: !IsConstructorCandidate(Lookup(props, keys[1..][j]));
        assert forall j | 0 <= j < i + 1 :: !IsConstructorCandidate(Lookup(props, keys[j])) by {
          forall j | 0 <= j < i + 1 ensures !IsConstructorCandidate(Lookup(props, keys[j])) {
            if j > 0 { assert keys[j] == keys[1..][j - 1]; }
          }
        }
        assert Lookup(props, keys[i + 1]) == FirstCandidate(keys, props);
      } else {
        forall i | 0 <= i < |keys| ensures !IsConstructorCandidate(Lookup(props, keys[i])) {
          if i > 0 { assert keys[i] == keys[1..][i - 1]; }
        }
      }
    }
  }

  /** A found value is a function whose source mentions jsPDF and that sits under a pdf-named key. */
  lemma ScanResultIsCandidate(props: seq<Property>)
    ensures ScanResult(props).Some? ==>
      && ScanResult(props).value.Function?
      && Contains(ScanResult(props).value.source, JSPDF_CONSTRUCTOR_KEY)
      && exists k | k in Keys(props) :: Contains(ToLowerCase(k), PDF) && Lookup(props, k) == ScanResult(props)
  {
    var ks := PdfKeys(props);
    FirstCandidateIsFirst(ks, props);
    if ScanResult(props).Some? {
      var i :| 0 <= i < |ks| && Lookup(props, ks[i]) == ScanResult(props) && IsConstructorCandidate(Lookup(props, ks[i]));
      assert ks[i] in ks;
      PdfKeyIsPdfNamed(ks[i]);
    }
  }

  /** Property `i` is one the scan stops at: a pdf-named key holding a candidate. */
  predicate ScanHit(props: seq<Property>, i: int)
    requires 0 <= i < |props|
  {
    IsPdfKey(props[i].key) && IsConstructorCandidate(Some(props[i].value))
  }

  /** With distinct keys, looking up a property's own key finds its value. */
  lemma {:induction false} LookupAt(props: seq<Property>, i: int)
    requires DistinctKeys(props) && 0 <= i < |props|
    ensures Lookup(props, props[i].key) == Some(props[i].value)
  {
    if 0 < i {
      assert props[0].key != props[i].key;
      assert props[1..][i - 1] == props[i];
      LookupAt(props[1..], i - 1);
    }
  }

  /** One step of the scan: property `m` is either the hit or passed over. */
  lemma ScanStep(props: seq<Property>, m: nat)
    requires DistinctKeys(props) && m < |props|
    ensures FirstCandidate(PdfKeys(props[m..]), props) ==
      if ScanHit(props, m) then Some(props[m].value) else FirstCandidate(PdfKeys(props[m + 1..]), props)
  {
    var s := props[m..];
    assert s[0] == props[m] && s[1..] == props[m + 1..];
    LookupAt(props, m);
    var ks := PdfKeys(s);
    if IsPdfKey(props[m].key) {
      assert ks == [props[m].key] + PdfKeys(props[m + 1..]);
      assert ks[1..] == PdfKeys(props[m + 1..]);
    } else {
      assert ks == PdfKeys(props[m + 1..]);
    }
  }

  /** The scan over the pdf-named keys from property `m` on stops at the first hit from `m` on. */
  lemma {:induction false} ScanFrom(props: seq<Property>, m: nat)
    requires DistinctKeys(props) && m <= |props|
    ensures FirstCandidate(PdfKeys(props[m..]), props).None? <==> forall i | m <= i < |props| :: !ScanHit(props, i)
    ensures forall i | m <= i < |props| && ScanHit(props, i) && (forall j | m <= j < i :: !ScanHit(props, j)) ::
      FirstCandidate(PdfKeys(props[m..]), props) == Some(props[i].value)
    decreases |props| - m
  {
    if m < |props| {
      ScanFrom(props, m + 1);
      ScanStep(props, m);
      forall i | m <= i < |props| && ScanHit(props, i) && (forall j | m <= j < i :: !ScanHit(props, j))
        ensures FirstCandidate(PdfKeys(props[m..]), props) == Some(props[i].value)
      {
        if m < i {
          assert !ScanHit(props, m);
        }
      }
    } else {
      assert props[m..] == [];
    }
  }

  /**
   * The scan finds nothing exactly when no property is a hit, and otherwise
   * returns the value of the first hit in `Object.keys` order.
   */
  lemma ScanResultIsFirstHit(props: seq<Property>)
    requires DistinctKeys(props)
    ensures ScanResult(props).None? <==> forall i | 0 <= i < |props| :: !ScanHit(props, i)
    ensures forall i | 0 <= i < |props| && ScanHit(props, i) && (forall j | 0 <= j < i :: !ScanHit(props, j)) ::
      ScanResult(props) == Some(props[i].value)
  {
    ScanFrom(props, 0);
    assert props[0..] == props;
  }

  // ---------------------------------------------------------------------------
  // The window object
  // ---------------------------------------------------------------------------

  class Window {
    /** The enumerable own properties of `window`, in `Object.keys` order. */
    var props: seq<Property>
    /** Global `let`, `const` and `class` bindings, which are not properties of `window`. */
    var lexical: map<JsString, Value>

    ghost predicate Valid()
      reads this
    {
      DistinctKeys(props)
    }

    constructor (props: seq<Property>, lexical: map<JsString, Value>)
      requires DistinctKeys(props)
      ensures Valid() && this.props == props && this.lexical == lexical
    {
      this.props := props;
      this.lexical := lexical;
    }

    /** `window[key]`. */
    function Get(key: JsString): Option<Value>
      reads this
    {
      Lookup(props, key)
    }

    /** The value of a bare identifier. */
    function Resolve(name: JsString): Option<Value>
      reads this
    {
      Binding(props, lexical, name)
    }

    /** `window[key] = v`. */
    method Set(key: JsString, v: Value)
      requires Valid()
      modifies this
      ensures Valid()
      ensures props == Assign(old(props), key, v) && lexical == old(lexical)
    {
      AssignDistinct(props, key, v);
      props := Assign(props, key, v);
    }

    /**
     * The scan: for each pdf-named key in order, the first whose value is a
     * function mentioning jsPDF is stored as `window.jspdf = {jsPDF: value}`
     * and the loop stops; `window.jspdf` is written only on a match.
     */
    method ScanPdfKeys() returns (found: bool)
      requires Valid()
      modifies this
      ensures Valid() && lexical == old(lexical)
      ensures found <==> ScanResult(old(props)).Some?
      ensures found ==> props == Assign(old(props), JSPDF_NAMESPACE_KEY, Namespace(ScanResult(old(props))))
      ensures !found ==> props == old(props)
    {
      var pdfKeys := PdfKeys(props);
      found := false;
      var i := 0;
      while i < |pdfKeys|
        invariant 0 <= i <= |pdfKeys|
        invariant props == old(props) && lexical == old(lexical) && Valid()
        invariant FirstCandidate(pdfKeys[i..], props) == ScanResult(props)
      {
        var key := pdfKeys[i];
        assert pdfKeys[i..][1..] == pdfKeys[i + 1..];
        if IsConstructorCandidate(Get(key)) {
          Set(JSPDF_NAMESPACE_KEY, Namespace(Get(key)));
          found := true;
          break;
        }
        i := i + 1;
      }
    }
  }
}
